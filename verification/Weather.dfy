/** The weather reducer, which keeps the line with the highest temperature of every date and station, in both modes
    (Job/scripts/weather/reduce.pl). The numeric reading of a field is a parameter. */
module Weather {
  import opened Bytes
  import opened Lines

  const SEMICOLON: Byte := 59

  /** The first field of a header line. */
  const DATE: Text := [68, 97, 116, 101]

  /** The field before the first semicolon, and what follows that semicolon. */
  function Before(s: Text): (r: Text)
    ensures SEMICOLON !in r && r <= s
  {
    if s == [] || s[0] == SEMICOLON then [] else
    assert s == [s[0]] + s[1..];
    [s[0]] + Before(s[1..])
  }

  function After(s: Text): (r: Text) {
    var field := Before(s);
    if |field| < |s| then s[|field| + 1..] else []
  }

  function DateOf(line: Line): Text { Before(line) }

  function WbanOf(line: Line): Text { Before(After(line)) }

  function TempOf(line: Line): Text { Before(After(After(line))) }

  function HourOf(line: Line): Text { After(After(After(line))) }

  function Join(date: Text, wban: Text, temp: Text, hour: Text): Line {
    date + [SEMICOLON] + wban + [SEMICOLON] + temp + [SEMICOLON] + hour
  }

  /** Four fields, the first one not empty. */
  predicate GoodLine(line: Line) {
    && line == Join(DateOf(line), WbanOf(line), TempOf(line), HourOf(line))
    && DateOf(line) != [] && SEMICOLON !in HourOf(line)
  }

  predicate GoodLines(lines: seq<Line>) {
    forall i :: 0 <= i < |lines| ==> GoodLine(lines[i])
  }

  function Key(line: Line): Line {
    DateOf(line) + [SEMICOLON] + WbanOf(line) + [SEMICOLON]
  }

  predicate IsHeader(line: Line) {
    DateOf(line) == DATE
  }

  /** All header lines are alike, and they sort behind the data. */
  ghost predicate HeadersLast(lines: seq<Line>) {
    forall h, l :: h in lines && l in lines && IsHeader(h) ==>
      if IsHeader(l) then Key(l) == Key(h) else Leq(Key(l), Key(h))
  }

  lemma {:induction false} CutField(a: Text, x: Text, b: Text, y: Text)
    requires SEMICOLON !in a && SEMICOLON !in b && a + [SEMICOLON] + x <= b + [SEMICOLON] + y
    ensures a == b && x <= y
  {
    assert (b != [] ==> b[0] in b) && (a != [] ==> a[0] in a);
    var p, q := a + [SEMICOLON] + x, b + [SEMICOLON] + y;
    assert p[0] == q[0];
    if a == [] || b == [] {
      assert p[1..] == x && q[1..] == y;
    } else {
      assert p[1..] == a[1..] + [SEMICOLON] + x && q[1..] == b[1..] + [SEMICOLON] + y;
      CutField(a[1..], x, b[1..], y);
      assert a == [a[0]] + a[1..] && b == [b[0]] + b[1..];
    }
  }

  lemma KeyIsNoPrefix(a: Line, b: Line)
    requires Key(a) <= Key(b)
    ensures DateOf(a) == DateOf(b) && WbanOf(a) == WbanOf(b)
  {
    CutKey(DateOf(a), WbanOf(a), DateOf(b), WbanOf(b));
  }

  lemma CutKey(date: Text, wban: Text, date': Text, wban': Text)
    requires SEMICOLON !in date && SEMICOLON !in date' && SEMICOLON !in wban && SEMICOLON !in wban'
    requires date + [SEMICOLON] + wban + [SEMICOLON] <= date' + [SEMICOLON] + wban' + [SEMICOLON]
    ensures date == date' && wban == wban'
  {
    var x, y := wban + [SEMICOLON], wban' + [SEMICOLON];
    assert date + [SEMICOLON] + wban + [SEMICOLON] == date + [SEMICOLON] + x;
    assert date' + [SEMICOLON] + wban' + [SEMICOLON] == date' + [SEMICOLON] + y;
    CutField(date, x, date', y);
    assert x == x + [] && y == y + [];
    CutField(wban, [], wban', []);
  }

  lemma SameKey(a: Line, b: Line)
    ensures Key(a) == Key(b) <==> DateOf(a) == DateOf(b) && WbanOf(a) == WbanOf(b)
  {
    if Key(a) == Key(b) {
      KeyIsNoPrefix(a, b);
    }
  }

  function Value(line: Line): Text {
    TempOf(line) + [SEMICOLON] + HourOf(line)
  }

  lemma KeyThenValue(line: Line)
    requires GoodLine(line)
    ensures line == Key(line) + Value(line)
  {
    hide Before, After, DateOf, WbanOf, TempOf, HourOf;
  }

  lemma KeyDecides(a: Line, b: Line)
    requires GoodLine(a) && GoodLine(b) && Key(a) != Key(b)
    ensures Leq(a, b) <==> Leq(Key(a), Key(b))
  {
    KeyThenValue(a);
    KeyThenValue(b);
    SameKey(a, b);
    KeysCross(a, b);
    hide Key, Value, GoodLine, DateOf, WbanOf, Leq;
    PrefixDecides(Key(a), Value(a), Key(b), Value(b));
  }

  lemma KeysCross(a: Line, b: Line)
    ensures Key(a) <= Key(b) || Key(b) <= Key(a) ==> Key(a) == Key(b)
  {
    if Key(a) <= Key(b) {
      KeyIsNoPrefix(a, b);
    } else if Key(b) <= Key(a) {
      KeyIsNoPrefix(b, a);
    }
  }

  /** The higher temperature wins; among equal ones the line that sorts first. */
  predicate Beats(num: Text -> real, a: Line, b: Line) {
    num(TempOf(a)) > num(TempOf(b)) || (num(TempOf(a)) == num(TempOf(b)) && Leq(a, b))
  }

  ghost predicate IsBest(num: Text -> real, lines: seq<Line>, l: Line) {
    l in lines && forall m :: m in lines && Key(m) == Key(l) ==> Beats(num, l, m)
  }

  /** The best line of every date and station, headers aside, in increasing order. */
  ghost predicate IsReduction(num: Text -> real, lines: seq<Line>, out: seq<Line>) {
    && KeysIncrease(out, Key)
    && (forall l :: l in out ==> IsBest(num, lines, l) && !IsHeader(l))
    && forall m :: m in lines && !IsHeader(m) ==> HasKey(out, Key(m))
  }

  ghost predicate HasKey(out: seq<Line>, key: Line) {
    exists l :: l in out && Key(l) == key
  }

  /** The same with the headers. */
  ghost predicate IsSummary(num: Text -> real, lines: seq<Line>, out: seq<Line>) {
    && KeysIncrease(out, Key)
    && (forall l :: l in out ==> IsBest(num, lines, l))
    && forall m :: m in lines ==> HasKey(out, Key(m))
  }

  /** What a reduction is for: of the lines of a date and station it keeps one that no other has a higher temperature
      than, the first in byte order among equal ones; and it keeps no header. */
  lemma KeptIsHighest(num: Text -> real, lines: seq<Line>, out: seq<Line>, l: Line)
    requires IsReduction(num, lines, out) && l in out
    ensures l in lines && DateOf(l) != [68, 97, 116, 101]
    ensures forall m :: m in lines && DateOf(m) == DateOf(l) && WbanOf(m) == WbanOf(l) ==>
      num(TempOf(m)) <= num(TempOf(l)) && (num(TempOf(m)) == num(TempOf(l)) ==> Leq(l, m))
  {
    hide Leq, DateOf, WbanOf, TempOf, KeysIncrease, HasKey;
    assert IsBest(num, lines, l) && !IsHeader(l);
    forall m | m in lines && DateOf(m) == DateOf(l) && WbanOf(m) == WbanOf(l) ensures Beats(num, l, m) {
      assert Key(m) == Key(l);
    }
  }

  /** And it keeps one for every date and station, headers aside, and no other. */
  lemma OneIsKept(num: Text -> real, lines: seq<Line>, out: seq<Line>, m: Line)
    requires IsReduction(num, lines, out) && m in lines && DateOf(m) != [68, 97, 116, 101]
    ensures exists i :: 0 <= i < |out| && DateOf(out[i]) == DateOf(m) && WbanOf(out[i]) == WbanOf(m)
    ensures forall i, j :: 0 <= i < j < |out| && DateOf(out[i]) == DateOf(m) && WbanOf(out[i]) == WbanOf(m) ==>
      DateOf(out[j]) != DateOf(m) || WbanOf(out[j]) != WbanOf(m)
  {
    hide Leq, DateOf, WbanOf, IsBest;
    assert HasKey(out, Key(m));
    var l :| l in out && Key(l) == Key(m);
    SameKey(l, m);
    var k :| 0 <= k < |out| && out[k] == l;
    forall i, j | 0 <= i < j < |out| ensures Key(out[i]) != Key(out[j]) {
      assert Less(Key(out[i]), Key(out[j]));
    }
  }

  lemma BestIsUnique(num: Text -> real, a: seq<Line>, b: seq<Line>, x: Line, y: Line)
    requires IsBest(num, a, x) && IsBest(num, b, y) && Key(x) == Key(y)
    requires forall l :: l in a <==> l in b
    ensures x == y
  {
    assert Beats(num, x, y) && Beats(num, y, x);
    LeqTotal(x, y);
  }

  lemma ReductionUnique(num: Text -> real, a: seq<Line>, b: seq<Line>, outA: seq<Line>, outB: seq<Line>)
    requires IsReduction(num, a, outA) && IsReduction(num, b, outB)
    requires forall l :: l in a <==> l in b
    ensures outA == outB
  {
    forall x ensures x in outA <==> x in outB {
      if x in outA {
        SameLine(num, a, b, outA, outB, x);
      }
      if x in outB {
        SameLine(num, b, a, outB, outA, x);
      }
    }
    IncreasingUnique(outA, outB, Key);
  }

  lemma SameLine(num: Text -> real, a: seq<Line>, b: seq<Line>, outA: seq<Line>, outB: seq<Line>, x: Line)
    requires IsReduction(num, a, outA) && IsReduction(num, b, outB) && x in outA
    requires forall l :: l in a <==> l in b
    ensures x in outB
  {
    assert IsBest(num, a, x) && !IsHeader(x);
    assert HasKey(outB, Key(x));
    var y :| y in outB && Key(y) == Key(x);
    BestIsUnique(num, a, b, x, y);
  }

  lemma FirstLine(num: Text -> real, line: Line)
    ensures IsSummary(num, [line], [line])
  {
    LeqTotal(line, line);
    forall m | m in [line] ensures HasKey([line], Key(m)) {
      assert m in [line];
    }
  }

  lemma SameGroup(num: Text -> real, lines: seq<Line>, out: seq<Line>, cur: Line, line: Line)
    requires IsSummary(num, lines, out + [cur]) && Key(line) == Key(cur)
    requires forall l :: l in lines ==> Leq(l, line)
    ensures IsSummary(num, lines + [line], out + [if num(TempOf(line)) > num(TempOf(cur)) then line else cur])
  {
    hide Leq, TempOf, Key;
    var next := if num(TempOf(line)) > num(TempOf(cur)) then line else cur;
    LeqTotal(line, line);
    SameKeys(out, cur, next);
    assert cur in out + [cur] && IsBest(num, lines, cur);
    forall l | l in out + [next] ensures IsBest(num, lines + [line], l) {
      if l in out {
        LastKey(out, cur, l);
        assert IsBest(num, lines, l);
      } else {
        assert l == next;
      }
    }
    forall m | m in lines + [line] ensures HasKey(out + [next], Key(m)) {
      assert next in out + [next];
      if Key(m) != Key(cur) {
        assert HasKey(out + [cur], Key(m));
        var l :| l in out + [cur] && Key(l) == Key(m);
        assert l in out + [next];
      }
    }
  }

  lemma SameKeys(out: seq<Line>, last: Line, next: Line)
    requires KeysIncrease(out + [last], Key) && Key(last) == Key(next)
    ensures KeysIncrease(out + [next], Key)
  {
    hide Leq, Key;
    var was, now := out + [last], out + [next];
    assert forall i :: 0 <= i < |now| ==> now[i] == if i < |out| then was[i] else next;
    assert was[|out|] == last;
    forall i, j | 0 <= i < j < |now| ensures Less(Key(now[i]), Key(now[j])) {
      assert Less(Key(was[i]), Key(was[j]));
    }
  }

  lemma LastKey(out: seq<Line>, last: Line, l: Line)
    requires KeysIncrease(out + [last], Key) && l in out
    ensures l in out + [last] && Less(Key(l), Key(last))
  {
    hide Leq, Key;
    var all := out + [last];
    var i :| 0 <= i < |out| && out[i] == l;
    assert all[i] == l && all[|out|] == last;
    assert Less(Key(all[i]), Key(all[|out|]));
  }

  lemma NewGroup(num: Text -> real, lines: seq<Line>, out: seq<Line>, cur: Line, line: Line)
    requires IsSummary(num, lines, out + [cur]) && Less(Key(cur), Key(line))
    ensures IsSummary(num, lines + [line], out + [cur] + [line])
  {
    hide Leq, TempOf, Key;
    var was, now := out + [cur], out + [cur] + [line];
    LeqTotal(line, line);
    forall l | l in was ensures Less(Key(l), Key(line)) {
      if l in out {
        LastKey(out, cur, l);
        LessTransitive(Key(l), Key(cur), Key(line));
      }
    }
    assert forall i :: 0 <= i < |was| ==> now[i] == was[i];
    forall i, j | 0 <= i < j < |now| ensures Less(Key(now[i]), Key(now[j])) {
      assert j < |was| ==> Less(Key(was[i]), Key(was[j]));
      assert was[i] in was;
    }
    forall m | m in lines ensures Key(m) != Key(line) && HasKey(now, Key(m)) {
      assert HasKey(was, Key(m));
      var l :| l in was && Key(l) == Key(m);
      assert l in now;
    }
    assert line in now;
    assert forall l :: l in was ==> IsBest(num, lines, l);
  }

  /** What the loop has reached after i lines: the best line of the last group is still to be written. */
  ghost predicate Reached(num: Text -> real, lines: seq<Line>, i: nat, out: seq<Line>, cur: Line) {
    && 0 < i <= |lines|
    && GoodLine(cur) && Key(cur) == Key(lines[i - 1])
    && (Sorted(lines) ==> IsSummary(num, lines[..i], out + [cur]))
  }

  lemma ReachedFirst(num: Text -> real, lines: seq<Line>)
    requires GoodLines(lines) && lines != []
    ensures Reached(num, lines, 1, [], lines[0])
  {
    FirstLine(num, lines[0]);
    assert lines[..1] == [lines[0]] && [] + [lines[0]] == [lines[0]];
  }

  lemma ReachedSame(num: Text -> real, lines: seq<Line>, i: nat, out: seq<Line>, cur: Line)
    requires GoodLines(lines) && i < |lines| && Reached(num, lines, i, out, cur) && Key(lines[i]) == Key(cur)
    ensures Reached(num, lines, i + 1, out, if num(TempOf(lines[i])) > num(TempOf(cur)) then lines[i] else cur)
  {
    hide Leq, TempOf, Key, IsSummary, GoodLine;
    assert lines[..i + 1] == lines[..i] + [lines[i]];
    if Sorted(lines) {
      forall l | l in lines[..i] ensures Leq(l, lines[i]) {
        var j :| 0 <= j < i && lines[j] == l;
      }
      SameGroup(num, lines[..i], out, cur, lines[i]);
    }
  }

  lemma ReachedNew(num: Text -> real, lines: seq<Line>, i: nat, out: seq<Line>, cur: Line)
    requires GoodLines(lines) && i < |lines| && Reached(num, lines, i, out, cur) && Key(lines[i]) != Key(cur)
    ensures Reached(num, lines, i + 1, out + [cur], lines[i])
  {
    hide Leq, TempOf, Key, IsSummary, GoodLine;
    assert lines[..i + 1] == lines[..i] + [lines[i]];
    if Sorted(lines) {
      KeyDecides(lines[i - 1], lines[i]);
      NewGroup(num, lines[..i], out, cur, lines[i]);
    }
  }

  lemma NoHeaderBefore(num: Text -> real, lines: seq<Line>, out: seq<Line>, cur: Line)
    requires IsSummary(num, lines, out + [cur]) && HeadersLast(lines)
    ensures forall l :: l in out ==> IsBest(num, lines, l) && !IsHeader(l)
    ensures IsBest(num, lines, cur) && KeysIncrease(out, Key)
  {
    hide Leq, Key, IsHeader, Beats;
    var all := out + [cur];
    assert cur in all && IsBest(num, lines, cur);
    forall l | l in out ensures IsBest(num, lines, l) && !IsHeader(l) {
      LastKey(out, cur, l);
      LeqTotal(Key(l), Key(cur));
      assert IsBest(num, lines, l);
    }
    assert forall i :: 0 <= i < |out| ==> all[i] == out[i];
    forall i, j | 0 <= i < j < |out| ensures Less(Key(out[i]), Key(out[j])) {
      assert Less(Key(all[i]), Key(all[j]));
    }
  }

  /** Not writing the last group exactly when it is the header's leaves the reduction. */
  lemma ReachedLast(num: Text -> real, lines: seq<Line>, out: seq<Line>, cur: Line)
    requires IsSummary(num, lines, out + [cur]) && HeadersLast(lines)
    ensures IsReduction(num, lines, if IsHeader(cur) then out else out + [cur])
  {
    NoHeaderBefore(num, lines, out, cur);
    DataKeys(num, lines, out, cur);
    var last := if IsHeader(cur) then out else out + [cur];
    hide HeadersLast, Key, IsBest, KeysIncrease, IsHeader, HasKey;
    forall l | l in last ensures IsBest(num, lines, l) && !IsHeader(l) {
      assert l in out || l == cur;
    }
  }

  lemma DataKeys(num: Text -> real, lines: seq<Line>, out: seq<Line>, cur: Line)
    requires IsSummary(num, lines, out + [cur])
    ensures forall m :: m in lines && !IsHeader(m) ==>
      HasKey(out + [cur], Key(m)) && (IsHeader(cur) ==> HasKey(out, Key(m)))
  {
    hide Leq, Key, DateOf, WbanOf, IsBest, KeysIncrease, IsHeader;
    forall m | m in lines && !IsHeader(m)
      ensures HasKey(out + [cur], Key(m)) && (IsHeader(cur) ==> HasKey(out, Key(m)))
    {
      assert HasKey(out + [cur], Key(m));
      var l :| l in out + [cur] && Key(l) == Key(m);
      SameKeyHeader(l, m);
      assert IsHeader(cur) ==> l in out;
    }
  }

  /** What the reducer writes without input, and without a newline. */
  const THREE: Text := [SEMICOLON, SEMICOLON, SEMICOLON]

  /** A line that starts with that: the three semicolons of a part without lines have run into it. */
  predicate Glued(line: Line) {
    THREE <= line
  }

  lemma GluedFields(line: Line)
    requires Glued(line)
    ensures DateOf(line) == [] && WbanOf(line) == [] && TempOf(line) == [] && line[0] == SEMICOLON
  {
    assert Before(line) == [] && After(line) == line[1..];
    assert After(line)[0] == line[1] && After(After(line)) == line[2..];
    assert After(After(line))[0] == line[2];
  }

  /** The variables of the reducer; ended tells whether the last field it holds includes the newline of its line, which
      it does when there are four fields. */
  datatype Held = Held(out: File, oldKey: Text, wbanMax: Text, keyMax: Text, maxHour: Text, ended: bool) {
    function Shown(): Line {
      Join(oldKey, wbanMax, keyMax, maxHour)
    }

    function Printed(): File {
      if ended then File(out.lines + [out.tail + Shown()], []) else File(out.lines, out.tail + Shown())
    }
  }

  const START := Held(EMPTY, [], [], [], [], false)

  function Step(num: Text -> real, h: Held, line: Line): Held {
    var date, wban, temp, hour := DateOf(line), WbanOf(line), TempOf(line), Before(HourOf(line));
    var ended := SEMICOLON !in HourOf(line);
    if h.oldKey == date && h.wbanMax == wban then
      if num(temp) > num(h.keyMax) then h.(keyMax := temp, maxHour := hour, ended := ended) else h
    else Held(if h.oldKey != [] then h.Printed() else h.out, date, wban, temp, hour, ended)
  }

  /** The end of the program. */
  function Final(h: Held): File {
    if h.oldKey != DATE then h.Printed() else h.out
  }

  /** After i of the data lines. */
  ghost predicate Gathers(num: Text -> real, data: seq<Line>, i: nat, h: Held) {
    && i <= |data|
    && if i == 0 then h == START else
      && h.out.tail == [] && h.ended && h.oldKey != []
      && HasFields(h.Shown(), h.oldKey, h.wbanMax, h.keyMax, h.maxHour)
      && Reached(num, data, i, h.out.lines, h.Shown())
  }

  lemma GathersMore(num: Text -> real, data: seq<Line>, i: nat, h: Held)
    requires GoodLines(data) && i < |data| && Gathers(num, data, i, h)
    ensures Gathers(num, data, i + 1, Step(num, h, data[i]))
  {
    hide DateOf, WbanOf, TempOf, HourOf, Join, Sorted, Reached, Key, GoodLine;
    var line := data[i];
    ItsFields(line);
    FourFields(line);
    if i == 0 {
      ReachedFirst(num, data);
    } else {
      var cur := h.Shown();
      SameKey(cur, line);
      assert [] + cur == cur;
      if h.oldKey == DateOf(line) && h.wbanMax == WbanOf(line) {
        ReachedSame(num, data, i, h.out.lines, cur);
      } else {
        ReachedNew(num, data, i, h.out.lines, cur);
      }
    }
  }

  lemma FourFields(line: Line)
    requires GoodLine(line)
    ensures Before(HourOf(line)) == HourOf(line) && SEMICOLON !in HourOf(line)
  {
    NoSemicolon(HourOf(line));
  }

  lemma {:induction false} NoSemicolon(s: Text)
    requires SEMICOLON !in s
    ensures Before(s) == s
  {
    if s != [] {
      NoSemicolon(s[1..]);
    }
  }

  ghost predicate NoHeaders(lines: seq<Line>) {
    forall l :: l in lines ==> !IsHeader(l)
  }

  /** After glued lines behind the data, of which this was the first. */
  ghost predicate Trails(num: Text -> real, data: seq<Line>, first: Line, h: Held) {
    if data == [] then h == START else
      && h.out.tail == [] && h.oldKey == [] && h.wbanMax == [] && h.keyMax == []
      && h.maxHour == Before(HourOf(first)) && h.ended == (SEMICOLON !in HourOf(first))
      && (Sorted(data) && HeadersLast(data) ==> IsReduction(num, data, h.out.lines))
  }

  lemma TrailsFirst(num: Text -> real, data: seq<Line>, first: Line, h: Held)
    requires Gathers(num, data, |data|, h) && NoHeaders(data) && Glued(first)
    ensures Trails(num, data, first, Step(num, h, first))
  {
    hide DateOf, WbanOf, TempOf, HourOf, Join, Sorted, Reached, Key, GoodLine, HeadersLast, IsReduction;
    GluedFields(first);
    if data != [] {
      var cur := h.Shown();
      assert [] + cur == cur;
      if Sorted(data) && HeadersLast(data) {
        LastIsData(num, data, h.out.lines, cur);
      }
    }
  }

  lemma LastIsData(num: Text -> real, data: seq<Line>, out: seq<Line>, cur: Line)
    requires Reached(num, data, |data|, out, cur) && Sorted(data) && HeadersLast(data) && NoHeaders(data)
    ensures IsReduction(num, data, out + [cur])
  {
    Finished(num, data, out, cur);
    assert data[..|data|] == data && cur in out + [cur];
    assert IsBest(num, data, cur);
  }

  lemma TrailsMore(num: Text -> real, data: seq<Line>, first: Line, h: Held, line: Line)
    requires Trails(num, data, first, h) && Glued(line)
    ensures Trails(num, data, first, Step(num, h, line))
  {
    GluedFields(line);
  }

  /** The best lines, and behind them what the glued ones leave. */
  function WithGlued(best: seq<Line>, first: Line): File {
    var last := THREE + Before(HourOf(first));
    if SEMICOLON !in HourOf(first) then File(best + [last], []) else File(best, last)
  }

  /** The reducer program, on data lines and glued ones behind them. Without data it writes three semicolons, and behind
      the best lines it writes them when there are glued ones. */
  method Reduce(num: Text -> real, lines: seq<Line>, ghost k: nat) returns (out: File, ghost best: seq<Line>)
    requires k <= |lines| && GoodLines(lines[..k]) && forall i :: k <= i < |lines| ==> Glued(lines[i])
    requires k < |lines| ==> NoHeaders(lines[..k])
    ensures k == 0 ==> out == File([], THREE)
    ensures k > 0 && Sorted(lines[..k]) && HeadersLast(lines[..k]) ==> IsReduction(num, lines[..k], best)
    ensures k > 0 && Sorted(lines[..k]) && HeadersLast(lines[..k]) ==>
      out == if k == |lines| then File(best, []) else WithGlued(best, lines[k])
  {
    hide Step, Gathers, Trails, Sorted, HeadersLast, IsReduction, GoodLine, Glued, NoHeaders;
    ghost var data := lines[..k];
    var h := START;
    StartGathers(num, data);
    var i := 0;
    while i < |lines|
      invariant 0 <= i <= |lines|
      invariant if i <= k then Gathers(num, data, i, h) else Trails(num, data, lines[k], h)
    {
      if i < k {
        GathersMore(num, data, i, h);
      } else if i == k {
        TrailsFirst(num, data, lines[i], h);
      } else {
        TrailsMore(num, data, lines[k], h, lines[i]);
      }
      h := Step(num, h, lines[i]);
      i := i + 1;
    }
    if k == |lines| {
      best := GathersAll(num, data, h);
    } else {
      best := TrailsAll(num, data, lines[k], h);
    }
    out := Final(h);
  }

  lemma StartGathers(num: Text -> real, data: seq<Line>)
    ensures Gathers(num, data, 0, START)
  {
  }

  lemma GathersAll(num: Text -> real, data: seq<Line>, h: Held) returns (best: seq<Line>)
    requires Gathers(num, data, |data|, h)
    ensures data == [] ==> Final(h) == File([], THREE)
    ensures data != [] && Sorted(data) && HeadersLast(data) ==>
      IsReduction(num, data, best) && Final(h) == File(best, [])
  {
    hide Sorted, HeadersLast, IsReduction, Reached, Key;
    var cur := h.Shown();
    assert [] + cur == cur;
    best := if data != [] && !IsHeader(cur) then h.out.lines + [cur] else h.out.lines;
    if data != [] && Sorted(data) && HeadersLast(data) {
      Finished(num, data, h.out.lines, cur);
    }
  }

  lemma TrailsAll(num: Text -> real, data: seq<Line>, first: Line, h: Held) returns (best: seq<Line>)
    requires Trails(num, data, first, h)
    ensures data == [] ==> Final(h) == File([], THREE)
    ensures data != [] && Sorted(data) && HeadersLast(data) ==>
      IsReduction(num, data, best) && Final(h) == WithGlued(best, first)
  {
    hide Sorted, HeadersLast, IsReduction;
    best := h.out.lines;
    hide Before, After;
    ThreeFirst(h.maxHour);
    assert [] + h.Shown() == h.Shown();
  }

  lemma ThreeFirst(hour: Text)
    ensures Join([], [], [], hour) == THREE + hour
  {
  }

  lemma Finished(num: Text -> real, lines: seq<Line>, out: seq<Line>, cur: Line)
    requires Reached(num, lines, |lines|, out, cur) && Sorted(lines) && HeadersLast(lines)
    ensures IsReduction(num, lines, if IsHeader(cur) then out else out + [cur])
  {
    assert lines[..|lines|] == lines;
    ReachedLast(num, lines, out, cur);
  }

  predicate HasFields(line: Line, date: Text, wban: Text, temp: Text, hour: Text) {
    DateOf(line) == date && WbanOf(line) == wban && TempOf(line) == temp && HourOf(line) == hour
  }

  lemma ItsFields(line: Line)
    requires GoodLine(line)
    ensures Join(DateOf(line), WbanOf(line), TempOf(line), HourOf(line)) == line && DateOf(line) != []
  {
  }

  lemma OnlyLinesMatter(num: Text -> real, a: seq<Line>, b: seq<Line>, out: seq<Line>)
    requires IsReduction(num, a, out) && forall l :: l in a <==> l in b
    ensures IsReduction(num, b, out)
  {
    hide Leq, Key, KeysIncrease, IsHeader;
    forall l | l in out ensures IsBest(num, b, l) && !IsHeader(l) {
      assert IsBest(num, a, l);
    }
  }

  /** Dates start with a digit, which sorts before the semicolon. */
  predicate EarlyDates(lines: seq<Line>) {
    forall l :: l in lines && !IsHeader(l) && DateOf(l) != [] ==> DateOf(l)[0] < SEMICOLON
  }

  /** Good lines, or glued ones among data. */
  ghost predicate Mixed(lines: seq<Line>) {
    || (forall l :: l in lines ==> GoodLine(l))
    || (EarlyDates(lines) && forall l :: l in lines ==> Glued(l) || (GoodLine(l) && !IsHeader(l)))
  }

  lemma FirstByte(line: Line)
    requires GoodLine(line)
    ensures line != [] && DateOf(line) != [] && line[0] == DateOf(line)[0] && line[0] != SEMICOLON && !Glued(line)
  {
    var date := DateOf(line);
    assert date[0] in date && date <= line;
  }

  /** Sorting puts the glued lines behind the data. */
  lemma GluedLast(lines: seq<Line>) returns (k: nat)
    requires Sorted(lines) && Mixed(lines)
    ensures k <= |lines| && GoodLines(lines[..k]) && forall i :: k <= i < |lines| ==> Glued(lines[i])
    ensures k < |lines| ==> NoHeaders(lines[..k])
  {
    hide DateOf, GoodLine, Glued, IsHeader;
    k := 0;
    while k < |lines| && !Glued(lines[k])
      invariant k <= |lines| && forall i :: 0 <= i < k ==> !Glued(lines[i])
    {
      k := k + 1;
    }
    if k < |lines| {
      assert lines[k] in lines;
      if GoodLine(lines[k]) {
        FirstByte(lines[k]);
      }
    }
    forall i | 0 <= i < k ensures GoodLine(lines[i]) && (k < |lines| ==> !IsHeader(lines[i])) {
      assert lines[i] in lines;
    }
    forall i | k < i < |lines| ensures Glued(lines[i]) {
      assert lines[i] in lines;
      BehindGlued(lines[k], lines[i]);
      if GoodLine(lines[i]) {
        FirstByte(lines[i]);
      }
    }
  }

  lemma BehindGlued(a: Line, b: Line)
    requires Glued(a) && Leq(a, b)
    ensures b != [] && b[0] >= SEMICOLON
  {
  }

  function DataOf(lines: seq<Line>): (r: seq<Line>)
    ensures forall l :: l in r <==> l in lines && !Glued(l)
  {
    if lines == [] then [] else
    assert lines == [lines[0]] + lines[1..];
    (if Glued(lines[0]) then [] else [lines[0]]) + DataOf(lines[1..])
  }

  /** What a node makes of the lines its sort reads: three semicolons without data, and otherwise the best lines, with
      what the first glued line leaves behind them if there is one. */
  ghost predicate NodeReduces(num: Text -> real, all: seq<Line>, out: File, best: seq<Line>, first: Line) {
    var data := DataOf(all);
    && (data == [] ==> out == File([], THREE))
    && (data != [] && HeadersLast(data) ==>
          && IsReduction(num, data, best)
          && (if HasGlued(all) then first in all && Glued(first) && out == WithGlued(best, first)
              else out == File(best, [])))
  }

  ghost predicate HasGlued(lines: seq<Line>) {
    exists l :: l in lines && Glued(l)
  }

  /** One order of a node: "cat parts | sort | reducer" (Nodo/src/node.c:139). */
  method NodeReduce(num: Text -> real, parts: seq<File>) returns (out: File, ghost best: seq<Line>, ghost first: Line)
    requires Mixed(LinesIn(Joined(parts)))
    ensures NodeReduces(num, LinesIn(Joined(parts)), out, best, first)
  {
    hide GoodLine, IsReduction, Join, Glued, Mixed, NoHeaders, HeadersLast, WithGlued, DataOf;
    var all := LinesIn(Joined(parts));
    var sorted := Sort(all);
    SameMembers(sorted, all);
    SameMixed(sorted, all);
    ghost var k := GluedLast(sorted);
    out, best := Reduce(num, sorted, k);
    first := if k < |sorted| then sorted[k] else [];
    DataFirst(sorted, k, all);
    if DataOf(all) != [] && HeadersLast(DataOf(all)) {
      FewerLines(sorted[..k], DataOf(all));
      OnlyLinesMatter(num, sorted[..k], DataOf(all), best);
    }
  }

  lemma SameMembers(a: seq<Line>, b: seq<Line>)
    requires multiset(a) == multiset(b)
    ensures |a| == |b| && forall l :: l in a <==> l in b
  {
    assert |multiset(a)| == |multiset(b)|;
    forall l ensures l in a <==> l in b {
      assert l in multiset(a) <==> l in multiset(b);
    }
  }

  lemma SameMixed(a: seq<Line>, b: seq<Line>)
    requires Mixed(b) && forall l :: l in a <==> l in b
    ensures Mixed(a)
  {
    hide GoodLine, Glued, IsHeader, DateOf;
  }

  lemma DataFirst(sorted: seq<Line>, k: nat, all: seq<Line>)
    requires k <= |sorted| && GoodLines(sorted[..k]) && forall i :: k <= i < |sorted| ==> Glued(sorted[i])
    requires Sorted(sorted) && forall l :: l in sorted <==> l in all
    ensures forall l :: l in sorted[..k] <==> l in DataOf(all)
    ensures k == 0 <==> DataOf(all) == []
    ensures k < |sorted| <==> HasGlued(all)
    ensures Sorted(sorted[..k])
  {
    hide GoodLine, Glued, DataOf, Leq;
    forall i | 0 <= i < k ensures !Glued(sorted[i]) {
      assert sorted[..k][i] == sorted[i];
      FirstByte(sorted[i]);
    }
    forall l | l in DataOf(all) ensures l in sorted[..k] {
      var i :| 0 <= i < |sorted| && sorted[i] == l;
      assert i < k && sorted[..k][i] == l;
    }
    forall l | l in sorted[..k] ensures l in DataOf(all) {
      var i :| 0 <= i < k && sorted[..k][i] == l;
      assert sorted[i] in sorted;
    }
    if k > 0 {
      assert sorted[..k][0] in DataOf(all);
    }
    if DataOf(all) != [] {
      assert DataOf(all)[0] in DataOf(all);
    }
    if k < |sorted| {
      assert sorted[k] in all && Glued(sorted[k]);
    }
  }

  /** Every line of a reduction is one of its data lines, and every data line is beaten by one. */
  lemma Represented(num: Text -> real, lines: seq<Line>, out: seq<Line>, m: Line) returns (l: Line)
    requires IsReduction(num, lines, out) && m in lines && !IsHeader(m)
    ensures l in out && Key(l) == Key(m) && Beats(num, l, m)
  {
    assert HasKey(out, Key(m));
    l :| l in out && Key(l) == Key(m);
    assert IsBest(num, lines, l);
  }

  lemma BeatsTransitive(num: Text -> real, a: Line, b: Line, c: Line)
    requires Beats(num, a, b) && Beats(num, b, c)
    ensures Beats(num, a, c)
  {
    if Leq(a, b) && Leq(b, c) {
      LeqTransitive(a, b, c);
    }
  }

  /** The partial results are what has to be known about the map outputs. */
  ghost predicate Represents(num: Text -> real, lines: seq<Line>, kept: seq<Line>) {
    && (forall l :: l in kept ==> l in lines && !IsHeader(l))
    && forall m :: m in lines && !IsHeader(m) ==> BeatenIn(num, kept, m)
  }

  ghost predicate BeatenIn(num: Text -> real, kept: seq<Line>, m: Line) {
    exists l :: l in kept && Key(l) == Key(m) && Beats(num, l, m)
  }

  lemma {:induction false} PartialsRepresent(num: Text -> real, groups: seq<seq<seq<Line>>>, partials: seq<seq<Line>>)
    requires |partials| == |groups|
    requires forall j :: 0 <= j < |groups| ==> IsReduction(num, Flatten(groups[j]), partials[j])
    ensures Represents(num, Flatten(Flatten(groups)), Flatten(partials))
  {
    if groups != [] {
      PartialsRepresent(num, groups[1..], partials[1..]);
      FlattenAppend(groups[0], Flatten(groups[1..]));
      OneMore(num, Flatten(groups[0]), partials[0], Flatten(Flatten(groups[1..])), Flatten(partials[1..]));
    }
  }

  lemma OneMore(num: Text -> real, lines: seq<Line>, out: seq<Line>, others: seq<Line>, kept: seq<Line>)
    requires IsReduction(num, lines, out) && Represents(num, others, kept)
    ensures Represents(num, lines + others, out + kept)
  {
    hide Leq, Key, KeysIncrease, IsHeader, Beats;
    forall l | l in out + kept ensures l in lines + others && !IsHeader(l) {
      assert l in out ==> IsBest(num, lines, l);
    }
    forall m | m in lines + others && !IsHeader(m) ensures BeatenIn(num, out + kept, m) {
      if m in lines {
        var l := Represented(num, lines, out, m);
        assert l in out + kept;
      } else {
        assert BeatenIn(num, kept, m);
        var l :| l in kept && Key(l) == Key(m) && Beats(num, l, m);
        assert l in out + kept;
      }
    }
  }

  /** Reducing the partial results is reducing the map outputs. */
  lemma ReductionOfPartials(num: Text -> real, lines: seq<Line>, kept: seq<Line>, out: seq<Line>)
    requires Represents(num, lines, kept) && IsReduction(num, kept, out)
    ensures IsReduction(num, lines, out)
  {
    hide Leq, Key, KeysIncrease, IsHeader, Beats;
    forall l | l in out ensures IsBest(num, lines, l) && !IsHeader(l) {
      assert IsBest(num, kept, l);
      forall m | m in lines && Key(m) == Key(l) ensures Beats(num, l, m) {
        SameKeyHeader(l, m);
        assert BeatenIn(num, kept, m);
        var k :| k in kept && Key(k) == Key(m) && Beats(num, k, m);
        BeatsTransitive(num, l, k, m);
      }
    }
    forall m | m in lines && !IsHeader(m) ensures HasKey(out, Key(m)) {
      assert BeatenIn(num, kept, m);
      var k :| k in kept && Key(k) == Key(m) && Beats(num, k, m);
      assert HasKey(out, Key(k));
    }
  }

  lemma SameKeyHeader(a: Line, b: Line)
    requires Key(a) == Key(b)
    ensures IsHeader(a) <==> IsHeader(b)
  {
    SameKey(a, b);
  }

  /** Combiner mode gives the lines of the other mode, however the map outputs lie on the nodes and in whatever
      order the parts reach the final reduce. */
  lemma CombinerAgrees(num: Text -> real, groups: seq<seq<seq<Line>>>, partials: seq<seq<Line>>,
                       arrived: seq<seq<Line>>, merged: seq<Line>, outputs: seq<seq<Line>>, direct: seq<Line>)
    requires |partials| == |groups|
    requires forall j :: 0 <= j < |groups| ==> IsReduction(num, Flatten(groups[j]), partials[j])
    requires multiset(arrived) == multiset(partials) && IsReduction(num, Flatten(arrived), merged)
    requires multiset(outputs) == multiset(Flatten(groups)) && IsReduction(num, Flatten(outputs), direct)
    ensures merged == direct
  {
    PartialsRepresent(num, groups, partials);
    SameLines(arrived, partials);
    SameLines(outputs, Flatten(groups));
    hide IsReduction, Represents;
    OnlyLinesMatter(num, Flatten(arrived), Flatten(partials), merged);
    ReductionOfPartials(num, Flatten(Flatten(groups)), Flatten(partials), merged);
    ReductionUnique(num, Flatten(Flatten(groups)), Flatten(outputs), merged, direct);
  }

  lemma SameLines(a: seq<seq<Line>>, b: seq<seq<Line>>)
    requires multiset(a) == multiset(b)
    ensures forall l :: l in Flatten(a) <==> l in Flatten(b)
  {
    CatPermuted(a, b);
    forall l ensures l in Flatten(a) <==> l in Flatten(b) {
      assert l in multiset(Flatten(a)) <==> l in multiset(Flatten(b));
    }
  }

  ghost predicate HasData(lines: seq<Line>) {
    exists l :: l in lines && !IsHeader(l)
  }

  lemma GroupLines(groups: seq<seq<seq<Line>>>, j: nat, outputs: seq<seq<Line>>)
    requires j < |groups| && multiset(outputs) == multiset(Flatten(groups))
    ensures forall l :: l in Flatten(groups[j]) ==> l in Flatten(outputs)
  {
    SameLines(outputs, Flatten(groups));
    forall l | l in Flatten(groups[j]) ensures l in Flatten(Flatten(groups)) {
      InFlatten(groups[j], l);
      var p :| 0 <= p < |groups[j]| && l in groups[j][p];
      InFlatten(groups, groups[j][p]);
      var at :| 0 <= at < |Flatten(groups)| && Flatten(groups)[at] == groups[j][p];
      InFlatten(Flatten(groups), l);
    }
  }

  /** The lines that reach the final reduce are data lines of the map outputs, and there are some if the map outputs
      have some. */
  lemma ArrivedLines(num: Text -> real, groups: seq<seq<seq<Line>>>, partials: seq<seq<Line>>,
                     arrived: seq<seq<Line>>, outputs: seq<seq<Line>>)
    requires |partials| == |groups|
    requires forall j :: 0 <= j < |groups| ==> IsReduction(num, Flatten(groups[j]), partials[j])
    requires multiset(arrived) == multiset(partials) && multiset(outputs) == multiset(Flatten(groups))
    ensures forall l :: l in Flatten(arrived) ==> l in Flatten(outputs) && !IsHeader(l)
    ensures HasData(Flatten(outputs)) <==> Flatten(arrived) != []
  {
    PartialsRepresent(num, groups, partials);
    SameLines(arrived, partials);
    SameLines(outputs, Flatten(groups));
    hide IsReduction, IsHeader;
    if Flatten(arrived) != [] {
      assert Flatten(arrived)[0] in Flatten(partials);
    }
    if HasData(Flatten(outputs)) {
      var m :| m in Flatten(outputs) && !IsHeader(m);
      assert BeatenIn(num, Flatten(partials), m);
      var l :| l in Flatten(partials) && Key(l) == Key(m) && Beats(num, l, m);
      assert l in Flatten(arrived);
    }
  }

  lemma NothingLeft(num: Text -> real, lines: seq<Line>, out: seq<Line>)
    requires IsReduction(num, lines, out)
    ensures out != [] ==> HasData(lines)
  {
    if out != [] {
      assert out[0] in out && IsBest(num, lines, out[0]) && !IsHeader(out[0]);
    }
  }

  /** What a node makes of its map outputs. */
  ghost predicate PartialOf(num: Text -> real, group: seq<seq<Line>>, partial: File) {
    if Flatten(group) == [] then partial == File([], THREE)
    else partial.tail == [] && IsReduction(num, Flatten(group), partial.lines)
  }

  function LinesOf(parts: seq<File>): (r: seq<seq<Line>>)
    ensures |r| == |parts|
  {
    seq(|parts|, i requires 0 <= i < |parts| => parts[i].lines)
  }

  lemma {:induction false} LinesPermuted(a: seq<File>, b: seq<File>)
    requires multiset(a) == multiset(b)
    ensures multiset(LinesOf(a)) == multiset(LinesOf(b))
    decreases |a|
  {
    hide LinesOf;
    if a == [] {
      assert |multiset(b)| == 0;
      assert b == a;
    } else {
      assert a[0] in multiset(b);
      var i :| 0 <= i < |b| && b[i] == a[0];
      var restA, restB := a[..0] + a[1..], b[..i] + b[i + 1..];
      assert multiset(restA) == multiset(restB) by {
        Lines.Removed(a, 0);
        Lines.Removed(b, i);
      }
      LinesPermuted(restA, restB);
      LinesWithout(a, 0);
      LinesWithout(b, i);
    }
  }

  lemma LinesWithout(parts: seq<File>, i: nat)
    requires i < |parts|
    ensures multiset(LinesOf(parts)) == multiset(LinesOf(parts[..i] + parts[i + 1..])) + multiset{parts[i].lines}
  {
    var all := LinesOf(parts);
    assert LinesOf(parts[..i] + parts[i + 1..]) == all[..i] + all[i + 1..];
    Lines.Removed(all, i);
  }

  predicate Within(lines: seq<Line>, known: set<Line>) {
    forall l :: l in lines ==> l in known
  }

  /** Parts without lines, which hold three semicolons, run into what follows them. */
  lemma {:induction false} PartsGlued(parts: seq<File>, known: set<Line>)
    requires forall p :: p in parts ==> p == File([], THREE) || (p.tail == [] && Within(p.lines, known))
    ensures Joined(parts).tail == [] || Glued(Joined(parts).tail)
    ensures forall l :: l in Joined(parts).lines ==> Glued(l) || l in known
    ensures File([], THREE) in parts ==> HasGlued(LinesIn(Joined(parts)))
  {
    hide Glued;
    if parts != [] {
      var rest := Joined(parts[1..]);
      assert parts == [parts[0]] + parts[1..];
      PartsGlued(parts[1..], known);
      if parts[0].tail == [] {
        TakesOver(parts[0].lines, rest);
      } else {
        RunsInto(rest);
      }
    }
  }

  lemma TakesOver(lines: seq<Line>, rest: File)
    ensures Glue(File(lines, []), rest) == File(lines + rest.lines, rest.tail)
  {
    if rest.lines != [] {
      assert [] + rest.lines[0] == rest.lines[0];
    }
  }

  lemma RunsInto(rest: File)
    ensures var f := Glue(File([], THREE), rest); HasGlued(LinesIn(f))
    ensures var f := Glue(File([], THREE), rest); forall l :: l in f.lines ==> Glued(l) || l in rest.lines
    ensures var f := Glue(File([], THREE), rest); f.tail == rest.tail || Glued(f.tail)
  {
    var f := Glue(File([], THREE), rest);
    if rest.lines == [] {
      assert f.tail in LinesIn(f) && Glued(f.tail);
    } else {
      assert f.lines[0] in LinesIn(f) && Glued(f.lines[0]);
    }
  }

  /** The job in both modes: groups are the map outputs by node; outputs are the same in the order of one final reduce;
      pick decides the order in which the partial results arrive. With data the modes agree exactly when no node is
      without lines: the three semicolons of such a node end up in the result, and swallow a line. Without data they
      agree exactly when there is no line at all: on headers one writes nothing and the other three semicolons. */
  method BothModes(num: Text -> real, groups: seq<seq<seq<Line>>>, outputs: seq<seq<Line>>, pick: nat -> nat)
    returns (merged: File, direct: File)
    requires forall l :: l in Flatten(outputs) ==> GoodLine(l)
    requires HeadersLast(Flatten(outputs)) && EarlyDates(Flatten(outputs))
    requires multiset(outputs) == multiset(Flatten(groups))
    ensures merged == direct <==> if HasData(Flatten(outputs)) then AllHaveLines(groups) else Flatten(outputs) == []
    ensures HasData(Flatten(outputs)) ==> direct.tail == [] && IsReduction(num, Flatten(outputs), direct.lines)
  {
    hide IsReduction, GoodLine, IsHeader, Flatten, Key, HeadersLast, Mixed, DataOf, WithGlued, Glued, EarlyDates,
      PartialOf;
    hide LinesOf, HasData, AllHaveLines, Joined, LinesIn;
    ghost var known := Flatten(outputs);
    var partials := [];
    ghost var ghostBest, ghostFirst;
    while |partials| < |groups|
      invariant |partials| <= |groups|
      invariant forall j :: 0 <= j < |partials| ==> PartialOf(num, groups[j], partials[j])
    {
      var j := |partials|;
      GroupLines(groups, j, outputs);
      FewerLines(Flatten(groups[j]), known);
      AllGood(groups[j]);
      var out;
      out, ghostBest, ghostFirst := NodeReduce(num, Ended(groups[j]));
      ItsPartial(num, groups[j], out, ghostBest, ghostFirst);
      partials := partials + [out];
    }
    var arrived := Arrive(partials, pick);
    ArrivedMixed(num, groups, partials, arrived, outputs);
    merged, ghostBest, ghostFirst := NodeReduce(num, arrived);
    ghost var directBest, directFirst;
    AllGood(outputs);
    direct, directBest, directFirst := NodeReduce(num, Ended(outputs));
    ItsPartial(num, outputs, direct, directBest, directFirst);
    SomeLine(num, outputs, direct);
    if AllHaveLines(groups) {
      AllArrive(num, groups, partials, arrived, outputs, merged, ghostBest, ghostFirst, direct);
    } else {
      SomeGlued(num, groups, partials, arrived, outputs, merged, ghostBest, ghostFirst, direct);
    }
  }

  lemma SomeLine(num: Text -> real, outputs: seq<seq<Line>>, direct: File)
    requires PartialOf(num, outputs, direct)
    ensures HasData(Flatten(outputs)) ==> Flatten(outputs) != [] && direct.tail == []
    ensures HasData(Flatten(outputs)) ==> IsReduction(num, Flatten(outputs), direct.lines)
  {
    hide IsReduction, Flatten;
  }

  ghost predicate AllHaveLines(groups: seq<seq<seq<Line>>>) {
    forall j :: 0 <= j < |groups| ==> Flatten(groups[j]) != []
  }

  /** The data lines of the map outputs. */
  ghost function Known(outputs: seq<seq<Line>>): set<Line> {
    set l | l in Flatten(outputs) && !IsHeader(l)
  }

  ghost predicate AllPartials(num: Text -> real, groups: seq<seq<seq<Line>>>, partials: seq<File>) {
    |partials| == |groups| && forall j :: 0 <= j < |groups| ==> PartialOf(num, groups[j], partials[j])
  }

  lemma ItsLines(num: Text -> real, groups: seq<seq<seq<Line>>>, j: nat, partial: File, outputs: seq<seq<Line>>)
    requires j < |groups| && multiset(outputs) == multiset(Flatten(groups)) && PartialOf(num, groups[j], partial)
    ensures partial == File([], THREE) || (partial.tail == [] && Within(partial.lines, Known(outputs)))
  {
    GroupLines(groups, j, outputs);
    hide Flatten, IsHeader, Key, KeysIncrease;
    forall l | l in partial.lines && partial.tail == [] && Flatten(groups[j]) != [] ensures l in Known(outputs) {
      assert IsBest(num, Flatten(groups[j]), l);
    }
  }

  /** What reaches the final reduce are data lines of the map outputs and glued ones. */
  lemma ArrivedKnown(num: Text -> real, groups: seq<seq<seq<Line>>>, partials: seq<File>, arrived: seq<File>,
                     outputs: seq<seq<Line>>)
    requires AllPartials(num, groups, partials)
    requires multiset(arrived) == multiset(partials) && multiset(outputs) == multiset(Flatten(groups))
    ensures forall l :: l in LinesIn(Joined(arrived)) ==> Glued(l) || l in Known(outputs)
    ensures !AllHaveLines(groups) ==> HasGlued(LinesIn(Joined(arrived)))
  {
    hide Flatten, Glued, PartialOf, Known, Joined;
    SameFiles(arrived, partials);
    forall p | p in arrived ensures p == File([], THREE) || (p.tail == [] && Within(p.lines, Known(outputs))) {
      var j :| 0 <= j < |partials| && partials[j] == p;
      ItsLines(num, groups, j, p, outputs);
    }
    PartsGlued(arrived, Known(outputs));
    if !AllHaveLines(groups) {
      var j :| 0 <= j < |groups| && Flatten(groups[j]) == [];
      EmptyGroup(num, groups[j], partials[j]);
      assert partials[j] in partials;
    }
  }

  lemma EmptyGroup(num: Text -> real, group: seq<seq<Line>>, partial: File)
    requires PartialOf(num, group, partial) && Flatten(group) == []
    ensures partial == File([], THREE)
  {
  }

  lemma SameFiles(a: seq<File>, b: seq<File>)
    requires multiset(a) == multiset(b)
    ensures forall p :: p in a <==> p in b
  {
    forall p ensures p in a <==> p in b {
      assert p in multiset(a) <==> p in multiset(b);
    }
  }

  lemma ArrivedMixed(num: Text -> real, groups: seq<seq<seq<Line>>>, partials: seq<File>, arrived: seq<File>,
                     outputs: seq<seq<Line>>)
    requires AllPartials(num, groups, partials)
    requires multiset(arrived) == multiset(partials) && multiset(outputs) == multiset(Flatten(groups))
    requires (forall l :: l in Flatten(outputs) ==> GoodLine(l)) && EarlyDates(Flatten(outputs))
    ensures Mixed(LinesIn(Joined(arrived)))
  {
    ArrivedKnown(num, groups, partials, arrived, outputs);
    hide Flatten, Glued, AllPartials, GoodLine, DateOf, IsHeader, Joined, LinesIn;
    forall l | l in LinesIn(Joined(arrived)) && Glued(l) ensures DateOf(l) == [] {
      GluedFields(l);
    }
  }

  lemma AllGood(outputs: seq<seq<Line>>)
    requires forall l :: l in Flatten(outputs) ==> GoodLine(l)
    ensures LinesIn(Joined(Ended(outputs))) == Flatten(outputs) && Mixed(Flatten(outputs))
  {
    hide GoodLine, Flatten;
    JoinedLines(outputs);
    assert Flatten(outputs) + [] == Flatten(outputs);
  }

  lemma ItsPartial(num: Text -> real, group: seq<seq<Line>>, out: File, best: seq<Line>, first: Line)
    requires forall l :: l in Flatten(group) ==> GoodLine(l)
    requires HeadersLast(Flatten(group)) && NodeReduces(num, Flatten(group), out, best, first)
    ensures PartialOf(num, group, out)
  {
    hide GoodLine, Glued, Flatten, DataOf, HeadersLast, IsReduction;
    OnlyData(Flatten(group), Flatten(group));
    if Flatten(group) != [] {
      OnlyLinesMatter(num, DataOf(Flatten(group)), Flatten(group), best);
    }
  }

  lemma FewerLines(a: seq<Line>, b: seq<Line>)
    requires HeadersLast(b) && forall l :: l in a ==> l in b
    ensures HeadersLast(a)
  {
  }

  lemma AllEnded(num: Text -> real, groups: seq<seq<seq<Line>>>, partials: seq<File>, arrived: seq<File>)
    requires AllPartials(num, groups, partials) && AllHaveLines(groups) && multiset(arrived) == multiset(partials)
    ensures LinesIn(Joined(arrived)) == Flatten(LinesOf(arrived))
    ensures forall j :: 0 <= j < |groups| ==> IsReduction(num, Flatten(groups[j]), LinesOf(partials)[j])
  {
    hide Flatten, IsReduction, Joined;
    SameFiles(arrived, partials);
    forall i | 0 <= i < |arrived| ensures arrived[i].tail == [] {
      assert arrived[i] in arrived && arrived[i] in partials;
    }
    assert arrived == Ended(LinesOf(arrived));
    JoinedLines(LinesOf(arrived));
    assert Flatten(LinesOf(arrived)) + [] == Flatten(LinesOf(arrived));
  }

  /** When every node has lines, the final reduce reads the lines of the partial results. */
  lemma AllArrive(num: Text -> real, groups: seq<seq<seq<Line>>>, partials: seq<File>, arrived: seq<File>,
                  outputs: seq<seq<Line>>, merged: File, best: seq<Line>, first: Line, direct: File)
    requires AllPartials(num, groups, partials) && AllHaveLines(groups)
    requires multiset(arrived) == multiset(partials) && multiset(outputs) == multiset(Flatten(groups))
    requires (forall l :: l in Flatten(outputs) ==> GoodLine(l)) && HeadersLast(Flatten(outputs))
    requires NodeReduces(num, LinesIn(Joined(arrived)), merged, best, first) && PartialOf(num, outputs, direct)
    ensures merged == direct <==> (HasData(Flatten(outputs)) || Flatten(outputs) == [])
  {
    hide Flatten, IsReduction, HeadersLast, GoodLine, Joined, LinesIn, Glued, IsHeader, HasData, DataOf, LinesOf;
    var all := Flatten(LinesOf(arrived));
    AllEnded(num, groups, partials, arrived);
    LinesPermuted(arrived, partials);
    ArrivedLines(num, groups, LinesOf(partials), LinesOf(arrived), outputs);
    OnlyData(all, Flatten(outputs));
    if HasData(Flatten(outputs)) {
      SomeLine(num, outputs, direct);
      OnlyLinesMatter(num, DataOf(all), all, best);
      CombinerAgrees(num, groups, LinesOf(partials), LinesOf(arrived), best, outputs, direct.lines);
    } else if Flatten(outputs) != [] {
      NothingLeft(num, Flatten(outputs), direct.lines);
    }
  }

  lemma OnlyData(all: seq<Line>, known: seq<Line>)
    requires (forall l :: l in all ==> l in known) && (forall l :: l in known ==> GoodLine(l)) && HeadersLast(known)
    ensures forall l :: l in all ==> !Glued(l)
    ensures forall l :: l in DataOf(all) <==> l in all
    ensures (DataOf(all) == [] <==> all == []) && HeadersLast(DataOf(all))
  {
    hide GoodLine, Glued, DataOf, HeadersLast;
    forall l | l in all ensures !Glued(l) {
      FirstByte(l);
    }
    if all != [] {
      assert all[0] in DataOf(all);
    }
    if DataOf(all) != [] {
      assert DataOf(all)[0] in all;
    }
    FewerLines(DataOf(all), known);
  }

  /** When a node has no line, three semicolons reach the final reduce. */
  lemma SomeGlued(num: Text -> real, groups: seq<seq<seq<Line>>>, partials: seq<File>, arrived: seq<File>,
                  outputs: seq<seq<Line>>, merged: File, best: seq<Line>, first: Line, direct: File)
    requires AllPartials(num, groups, partials) && !AllHaveLines(groups)
    requires multiset(arrived) == multiset(partials) && multiset(outputs) == multiset(Flatten(groups))
    requires (forall l :: l in Flatten(outputs) ==> GoodLine(l)) && HeadersLast(Flatten(outputs))
    requires NodeReduces(num, LinesIn(Joined(arrived)), merged, best, first) && PartialOf(num, outputs, direct)
    ensures merged == direct <==> Flatten(outputs) == []
  {
    hide Flatten, IsReduction, HeadersLast, GoodLine, Joined, LinesIn, Glued, IsHeader, DataOf, HasGlued, AllPartials,
      AllHaveLines, WithGlued;
    var all := LinesIn(Joined(arrived));
    ArrivedKnown(num, groups, partials, arrived, outputs);
    forall l | l in DataOf(all) ensures l in Flatten(outputs) {
      assert l in all && !Glued(l) && l in Known(outputs);
    }
    FewerLines(DataOf(all), Flatten(outputs));
    if DataOf(all) != [] {
      assert DataOf(all)[0] in Flatten(outputs);
      NotGlued(num, outputs, best, first, direct);
    }
  }

  lemma NotGlued(num: Text -> real, outputs: seq<seq<Line>>, best: seq<Line>, first: Line, direct: File)
    requires PartialOf(num, outputs, direct) && Flatten(outputs) != []
    requires (forall l :: l in Flatten(outputs) ==> GoodLine(l))
    ensures direct != WithGlued(best, first)
  {
    hide Flatten, KeysIncrease, GoodLine, HasKey, IsHeader;
    var with := WithGlued(best, first);
    if with.tail == [] && direct == with {
      var last := with.lines[|best|];
      assert last in direct.lines && IsBest(num, Flatten(outputs), last);
      FirstByte(last);
    }
  }
}
