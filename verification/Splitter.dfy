/** Cutting a text into newline-aligned blocks (filesystem_getBlocksFromStr). */
module Splitter {
  import opened Bytes

  /** What one call does: it returns its blocks, or it reaches a position from which its outer loop repeats
      itself for ever, because the scan for a newline adds no block and moves nothing. */
  datatype Cut = Blocks(blocks: seq<Text>) | Hangs(at: nat)

  predicate NewlineWithin(str: Text, lo: nat, hi: nat)
    requires hi <= |str|
  {
    exists j :: lo <= j < hi && str[j] == NEWLINE
  }

  /** j is where the backward scan from i stops. A newline at i itself is never looked at. */
  predicate LastNewline(str: Text, n: nat, i: nat, j: nat)
    requires i + n <= |str|
  {
    i < j < i + n && str[j] == NEWLINE && forall k :: j < k < i + n ==> str[k] != NEWLINE
  }

  /** i is a position at which the splitter starts a block. */
  ghost predicate Reached(str: Text, n: nat, i: nat)
    decreases i
  {
    i == 0 || exists p: nat :: p < i && p + n <= |str| && Reached(str, n, p) && LastNewline(str, n, p, i - 1)
  }

  /** The guard under which a block can be cut at i. */
  predicate CanCutAt(str: Text, n: nat, i: nat)
  {
    i + n <= |str| ==> NewlineWithin(str, i + 1, i + n)
  }

  /** A legal way to cut a text: newline-terminated blocks of at most n bytes, then a last block shorter than n. */
  ghost predicate IsCut(str: Text, n: nat, blocks: seq<Text>)
  {
    && blocks != []
    && Flatten(blocks) == str
    && |blocks[|blocks| - 1]| < n
    && FullBlocks(n, blocks[..|blocks| - 1])
  }

  ghost predicate FullBlocks(n: nat, blocks: seq<Text>)
  {
    forall k :: 0 <= k < |blocks| ==> 1 <= |blocks[k]| <= n && blocks[k][|blocks[k]| - 1] == NEWLINE
  }

  /** Each block starts where the splitter's rule puts it. */
  ghost predicate StartsReached(str: Text, n: nat, blocks: seq<Text>)
  {
    forall k :: 0 <= k < |blocks| ==> Reached(str, n, |Flatten(blocks[..k])|)
  }

  method GetBlocksFromStr(str: Text, n: nat) returns (r: Cut)
    requires 2 <= n
    ensures r.Blocks? ==> IsCut(str, n, r.blocks)
    ensures r.Blocks? ==> forall k :: 0 <= k < |r.blocks| - 1 ==> 2 <= |r.blocks[k]|
    ensures r.Blocks? ==> StartsReached(str, n, r.blocks)
    ensures r.Blocks? ==> forall other :: IsCut(str, n, other) ==> |r.blocks| <= |other|
    ensures r.Blocks? <==> forall i: nat :: Reached(str, n, i) ==> CanCutAt(str, n, i)
    ensures r.Hangs? ==> Reached(str, n, r.at) && !CanCutAt(str, n, r.at)
  {
    var blocks: seq<Text> := [];
    var i := 0;
    while true
      invariant i <= |str| && Progress(str, n, blocks, i)
      decreases |str| - i
    {
      if i + n > |str| {
        Finish(str, n, blocks, i);
        return Blocks(blocks + [str[i..]]);
      }
      var j := i + n - 1;
      while j > i && str[j] != NEWLINE
        invariant i <= j < i + n
        invariant forall k :: j < k < i + n ==> str[k] != NEWLINE
      {
        j := j - 1;
      }
      if j == i {
        assert Reached(str, n, i) && !CanCutAt(str, n, i);
        return Hangs(i);
      }
      Advance(str, n, blocks, i, j);
      blocks := blocks + [str[i..j + 1]];
      i := j + 1;
    }
  }

  /** The blocks made so far: they hold the text up to i, and no legal cut has done better with as many. */
  ghost predicate Progress(str: Text, n: nat, blocks: seq<Text>, i: nat)
    requires i <= |str|
  {
    && Flatten(blocks) == str[..i]
    && FullBlocks(n, blocks)
    && (forall k :: 0 <= k < |blocks| ==> 2 <= |blocks[k]|)
    && Reached(str, n, i) && StartsBefore(str, n, i)
    && StartsReached(str, n, blocks)
    && forall other :: IsCut(str, n, other) ==> Ahead(other, |blocks|, i)
  }

  lemma Advance(str: Text, n: nat, blocks: seq<Text>, i: nat, j: nat)
    requires i + n <= |str| && Progress(str, n, blocks, i) && LastNewline(str, n, i, j)
    ensures Progress(str, n, blocks + [str[i..j + 1]], j + 1)
  {
    hide Reached;
    AppendBlock(str, blocks, i, j + 1);
    NextStart(str, n, i, j);
    StartsExtend(str, n, blocks, i, str[i..j + 1]);
    forall other | IsCut(str, n, other) ensures Ahead(other, |blocks| + 1, j + 1) {
      StaysAhead(str, n, other, |blocks|, i, j);
    }
  }

  lemma Finish(str: Text, n: nat, blocks: seq<Text>, i: nat)
    requires i <= |str| < i + n && Progress(str, n, blocks, i)
    ensures IsCut(str, n, blocks + [str[i..]])
    ensures StartsReached(str, n, blocks + [str[i..]])
    ensures forall p: nat :: Reached(str, n, p) ==> CanCutAt(str, n, p)
  {
    AppendBlock(str, blocks, i, |str|);
    assert str[i..|str|] == str[i..] && str[..|str|] == str;
    assert (blocks + [str[i..]])[..|blocks|] == blocks;
    StartsExtend(str, n, blocks, i, str[i..]);
  }

  lemma StartsExtend(str: Text, n: nat, blocks: seq<Text>, i: nat, b: Text)
    requires StartsReached(str, n, blocks) && Reached(str, n, i) && |Flatten(blocks)| == i
    ensures StartsReached(str, n, blocks + [b])
  {
    forall k | 0 <= k < |blocks| + 1 ensures Reached(str, n, |Flatten((blocks + [b])[..k])|) {
      assert (blocks + [b])[..k] == blocks[..k];
      assert blocks[..|blocks|] == blocks;
    }
  }

  lemma AppendBlock(str: Text, blocks: seq<Text>, i: nat, e: nat)
    requires i <= e <= |str| && Flatten(blocks) == str[..i]
    ensures Flatten(blocks + [str[i..e]]) == str[..e]
  {
    FlattenAppend(blocks, [str[i..e]]);
    assert Flatten([str[i..e]]) == str[i..e];
  }

  /** No start before i leads past i, and a block could be cut at each of them. */
  ghost predicate StartsBefore(str: Text, n: nat, i: nat)
  {
    && (forall q: nat, e: nat :: q < i && Reached(str, n, q) && q + n <= |str| && LastNewline(str, n, q, e) ==> e < i)
    && (forall q: nat :: q < i && Reached(str, n, q) ==> CanCutAt(str, n, q))
  }

  lemma {:induction false} NoStartInside(str: Text, n: nat, i: nat, j: nat, p: nat)
    requires StartsBefore(str, n, i) && i + n <= |str| && LastNewline(str, n, i, j)
    requires i < p <= j
    ensures !Reached(str, n, p)
    decreases p
  {
    forall q | i < q < p ensures !Reached(str, n, q) {
      NoStartInside(str, n, i, j, q);
    }
  }

  lemma NextStart(str: Text, n: nat, i: nat, j: nat)
    requires Reached(str, n, i) && StartsBefore(str, n, i) && i + n <= |str| && LastNewline(str, n, i, j)
    ensures Reached(str, n, j + 1) && StartsBefore(str, n, j + 1)
  {
    forall p | i < p <= j ensures !Reached(str, n, p) {
      NoStartInside(str, n, i, j, p);
    }
  }

  /** Starts come one after another: none lies between a start and the newline it leads to. */
  lemma {:induction false} NextOrder(str: Text, n: nat, a: nat, b: nat, e: nat)
    requires Reached(str, n, a) && Reached(str, n, b) && a < b && a + n <= |str| && LastNewline(str, n, a, e)
    ensures e < b
    decreases a + b
  {
    var r: nat :| r < b && r + n <= |str| && Reached(str, n, r) && LastNewline(str, n, r, b - 1);
    if a < r {
      NextOrder(str, n, a, r, e);
    } else if r < a {
      NextOrder(str, n, r, a, b - 1);
    }
  }

  /** After k blocks the other cut is not finished and has not got further than i. */
  ghost predicate Ahead(other: seq<Text>, k: nat, i: nat)
  {
    k < |other| && |Flatten(other[..k])| <= i
  }

  lemma StaysAhead(str: Text, n: nat, other: seq<Text>, k: nat, i: nat, j: nat)
    requires IsCut(str, n, other) && Ahead(other, k, i)
    requires i + n <= |str| && LastNewline(str, n, i, j)
    ensures Ahead(other, k + 1, j + 1)
  {
    var c := |Flatten(other[..k])|;
    assert other == other[..k] + [other[k]] + other[k + 1..];
    FlattenAppend(other[..k] + [other[k]], other[k + 1..]);
    FlattenAppend(other[..k], [other[k]]);
    assert other[..k + 1] == other[..k] + [other[k]];
    assert Flatten([other[k]]) == other[k];
    assert str == Flatten(other[..k]) + other[k] + Flatten(other[k + 1..]);
    if k + 1 < |other| {
      var e := c + |other[k]| - 1;
      assert other[k] == other[..|other| - 1][k];
      assert str[e] == NEWLINE;
    }
  }

  /** The text has no blank line. */
  predicate NoBlankLine(str: Text)
  {
    forall i :: 0 <= i < |str| && str[i] == NEWLINE ==> i > 0 && str[i - 1] != NEWLINE
  }

  predicate LineStart(str: Text, i: nat)
  {
    i <= |str| && (i == 0 || str[i - 1] == NEWLINE)
  }

  /** Every line, with its newline, fits in a block; an unterminated last line fits with room to spare. */
  predicate LinesFit(str: Text, n: nat)
  {
    forall i: nat :: LineStart(str, i) && i + n <= |str| ==> NewlineWithin(str, i, i + n)
  }

  lemma ReachedIsLineStart(str: Text, n: nat, i: nat)
    requires Reached(str, n, i) && i <= |str|
    ensures LineStart(str, i)
  {
  }

  lemma {:induction false} FindLastNewline(str: Text, n: nat, i: nat, hi: nat) returns (j: nat)
    requires i < hi <= i + n <= |str| && NewlineWithin(str, i + 1, hi)
    requires forall k :: hi <= k < i + n ==> str[k] != NEWLINE
    ensures LastNewline(str, n, i, j)
  {
    j := hi - 1;
    if str[j] != NEWLINE {
      j := FindLastNewline(str, n, i, hi - 1);
    }
  }

  /** If a block can be cut at every reached position then the text from any of them on can be cut. */
  lemma {:induction false} BuildCut(str: Text, n: nat, i: nat) returns (blocks: seq<Text>)
    requires forall p: nat :: Reached(str, n, p) ==> CanCutAt(str, n, p)
    requires Reached(str, n, i) && i <= |str|
    ensures IsCut(str[i..], n, blocks)
    decreases |str| - i
  {
    if i + n > |str| {
      blocks := [str[i..]];
    } else {
      var j := FindLastNewline(str, n, i, i + n);
      var rest := BuildCut(str, n, j + 1);
      blocks := [str[i..j + 1]] + rest;
      assert blocks[1..] == rest;
      assert str[i..] == str[i..j + 1] + str[j + 1..];
      assert blocks[..|blocks| - 1] == [str[i..j + 1]] + rest[..|rest| - 1];
    }
  }

  lemma {:induction false} CutShowsNewline(str: Text, n: nat, blocks: seq<Text>, p: nat)
    requires IsCut(str, n, blocks) && p + n <= |str|
    ensures NewlineWithin(str, p, p + n)
    decreases |blocks|
  {
    var b := blocks[0];
    assert str == b + Flatten(blocks[1..]);
    if |blocks| > 1 {
      assert b == blocks[..|blocks| - 1][0];
      if p < |b| {
        assert str[|b| - 1] == NEWLINE;
      } else {
        var rest := blocks[1..];
        assert rest[..|rest| - 1] == blocks[..|blocks| - 1][1..];
        CutShowsNewline(str[|b|..], n, rest, p - |b|);
        var j :| p - |b| <= j < p - |b| + n && str[|b|..][j] == NEWLINE;
        assert str[j + |b|] == NEWLINE;
      }
    }
  }

  /** On every text: if the splitter ends then the text can be cut, and a text that can be cut has lines that fit. */
  lemma EndsOnlyIfLinesFit(str: Text, n: nat)
    ensures (forall i: nat :: Reached(str, n, i) ==> CanCutAt(str, n, i)) ==> exists blocks :: IsCut(str, n, blocks)
    ensures (exists blocks :: IsCut(str, n, blocks)) ==> LinesFit(str, n)
  {
    if forall i: nat :: Reached(str, n, i) ==> CanCutAt(str, n, i) {
      var blocks := BuildCut(str, n, 0);
      assert str[0..] == str;
    }
    forall blocks, i: nat | IsCut(str, n, blocks) && LineStart(str, i) && i + n <= |str|
      ensures NewlineWithin(str, i, i + n)
    {
      CutShowsNewline(str, n, blocks, i);
    }
  }

  /** Without blank lines a caller can tell beforehand: the splitter ends exactly when every line fits in a
      block, which is also exactly when the text can be cut at all. */
  lemma EndsIffLinesFit(str: Text, n: nat)
    requires NoBlankLine(str)
    ensures LinesFit(str, n) <==> forall i: nat :: Reached(str, n, i) ==> CanCutAt(str, n, i)
    ensures LinesFit(str, n) <==> exists blocks :: IsCut(str, n, blocks)
  {
    EndsOnlyIfLinesFit(str, n);
    if LinesFit(str, n) {
      forall i: nat | Reached(str, n, i) ensures CanCutAt(str, n, i) {
        if i + n <= |str| {
          ReachedIsLineStart(str, n, i);
          var j :| i <= j < i + n && str[j] == NEWLINE;
          assert j != i;
        }
      }
    }
  }

  /** With blank lines it can hang on a text that could have been cut: here "a", two blank lines and "ab" with
      blocks of three bytes. */
  lemma HangsOnCuttableText(str: Text)
    requires str == [97, NEWLINE, NEWLINE, NEWLINE, 97, 98, NEWLINE]
    ensures IsCut(str, 3, [[97, NEWLINE], [NEWLINE, NEWLINE], [97, 98, NEWLINE], []])
    ensures Reached(str, 3, 3) && !CanCutAt(str, 3, 3)
  {
    assert Reached(str, 3, 0) && LastNewline(str, 3, 0, 2);
    assert Reached(str, 3, 3);
    var a: Text, b: Text, c: Text := [97, NEWLINE], [NEWLINE, NEWLINE], [97, 98, NEWLINE];
    var e: Text := [];
    assert Flatten([e]) == e;
    assert [c, e][1..] == [e] && Flatten([c, e]) == c + e;
    assert [b, c, e][1..] == [c, e] && Flatten([b, c, e]) == b + (c + e);
    assert [a, b, c, e][1..] == [b, c, e] && Flatten([a, b, c, e]) == a + (b + (c + e));
  }
}
