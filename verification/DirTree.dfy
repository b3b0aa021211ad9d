/** The directory collection as a tree: each document names its parent, the root has no document. */
module DirTree {

  type DirId = string

  datatype Dir = Dir(name: string, parentId: DirId)

  type Dirs = map<DirId, Dir>

  const ROOT: DirId := "0"

  datatype Step = At(id: DirId) | Outside

  /** Where k steps towards the root lead. */
  function Up(dirs: Dirs, x: DirId, k: nat): Step
    decreases k
  {
    if k == 0 then At(x)
    else if x in dirs then Up(dirs, dirs[x].parentId, k - 1)
    else Outside
  }

  /** x is d or lies somewhere below it. */
  ghost predicate Under(dirs: Dirs, x: DirId, d: DirId) {
    exists k: nat :: Up(dirs, x, k) == At(d)
  }

  /** depth counts the steps from every directory to the root. */
  ghost predicate Ranked(dirs: Dirs, depth: map<DirId, nat>) {
    && ROOT !in dirs && ROOT in depth && depth[ROOT] == 0
    && dirs.Keys <= depth.Keys
    && forall x :: x in dirs ==>
      && (dirs[x].parentId == ROOT || dirs[x].parentId in dirs)
      && depth[x] == depth[dirs[x].parentId] + 1
  }

  /** Every directory is connected to the root. */
  ghost predicate IsTree(dirs: Dirs) {
    exists depth :: Ranked(dirs, depth)
  }

  predicate Known(dirs: Dirs, x: DirId) {
    x == ROOT || x in dirs
  }

  lemma {:induction false} UpDepth(dirs: Dirs, depth: map<DirId, nat>, x: DirId, k: nat)
    requires Ranked(dirs, depth) && Known(dirs, x)
    ensures Up(dirs, x, k).At? ==> Known(dirs, Up(dirs, x, k).id) && depth[x] == depth[Up(dirs, x, k).id] + k
    decreases k
  {
    if k > 0 && x in dirs {
      UpDepth(dirs, depth, dirs[x].parentId, k - 1);
    }
  }

  lemma {:induction false} UpLast(dirs: Dirs, x: DirId, k: nat)
    ensures Up(dirs, x, k + 1) == match Up(dirs, x, k)
      case At(y) => if y in dirs then At(dirs[y].parentId) else Outside
      case Outside => Outside
    decreases k
  {
    if k > 0 && x in dirs {
      UpLast(dirs, dirs[x].parentId, k - 1);
    }
  }

  /** Nothing lies below the removed directories that is not removed too. */
  ghost predicate Closed(dirs: Dirs, removed: set<DirId>) {
    ROOT !in removed && forall x :: x in dirs && dirs[x].parentId in removed ==> x in removed
  }

  lemma {:induction false} UpAfterRemoval(dirs: Dirs, removed: set<DirId>, x: DirId, k: nat)
    requires Closed(dirs, removed) && x !in removed
    ensures Up(dirs - removed, x, k) == Up(dirs, x, k)
    ensures Up(dirs, x, k).At? ==> Up(dirs, x, k).id !in removed
    decreases k
  {
    if k > 0 && x in dirs {
      UpAfterRemoval(dirs, removed, dirs[x].parentId, k - 1);
    }
  }

  lemma UnderAfterRemoval(dirs: Dirs, removed: set<DirId>, x: DirId, d: DirId)
    requires Closed(dirs, removed) && x !in removed
    ensures Under(dirs - removed, x, d) <==> Under(dirs, x, d)
  {
    forall k: nat ensures Up(dirs - removed, x, k) == Up(dirs, x, k) {
      UpAfterRemoval(dirs, removed, x, k);
    }
  }

  /** The directories at or below one of the given ones. */
  ghost function Beneath(dirs: Dirs, tops: set<DirId>): set<DirId> {
    set x | x in dirs && Inside(dirs, x, tops)
  }

  ghost predicate Inside(dirs: Dirs, x: DirId, tops: set<DirId>) {
    exists d :: d in tops && Under(dirs, x, d)
  }

  ghost function Children(dirs: Dirs, d: DirId): set<DirId> {
    set x | x in dirs && dirs[x].parentId == d
  }

  lemma UnderParent(dirs: Dirs, x: DirId, d: DirId)
    requires x in dirs && Under(dirs, dirs[x].parentId, d)
    ensures Under(dirs, x, d)
  {
    var k: nat :| Up(dirs, dirs[x].parentId, k) == At(d);
    assert Up(dirs, x, k + 1) == At(d);
  }

  lemma BeneathIsClosed(dirs: Dirs, tops: set<DirId>)
    requires ROOT !in dirs
    ensures Closed(dirs, Beneath(dirs, tops))
  {
    forall x, d | x in dirs && d in tops && Under(dirs, dirs[x].parentId, d) ensures Under(dirs, x, d) {
      UnderParent(dirs, x, d);
    }
  }

  /** Below d lies d itself and what lies below one of its children. */
  lemma UnderViaChild(dirs: Dirs, x: DirId, d: DirId)
    ensures Under(dirs, x, d) <==> x == d || exists c :: c in Children(dirs, d) && Under(dirs, x, c)
  {
    assert Up(dirs, x, 0) == At(x);
    if x != d && Under(dirs, x, d) {
      var k: nat :| Up(dirs, x, k) == At(d);
      UpLast(dirs, x, k - 1);
      var c := Up(dirs, x, k - 1).id;
      assert c in Children(dirs, d) && Under(dirs, x, c);
    }
    forall c | c in Children(dirs, d) && Under(dirs, x, c) ensures Under(dirs, x, d) {
      var k: nat :| Up(dirs, x, k) == At(c);
      UpLast(dirs, x, k);
      assert Up(dirs, x, k + 1) == At(d);
    }
  }

  /** No child of a directory lies below another child. */
  lemma SiblingsApart(dirs: Dirs, depth: map<DirId, nat>, d: DirId, c: DirId, e: DirId)
    requires Ranked(dirs, depth) && c in Children(dirs, d) && e in Children(dirs, d) && Under(dirs, c, e)
    ensures c == e
  {
    var k: nat :| Up(dirs, c, k) == At(e);
    UpDepth(dirs, depth, c, k);
  }

  lemma RankedAfterRemoval(dirs: Dirs, depth: map<DirId, nat>, removed: set<DirId>)
    requires Ranked(dirs, depth) && Closed(dirs, removed)
    ensures Ranked(dirs - removed, depth)
  {
  }

  lemma {:induction false} UpUntil(dirs: Dirs, moved: Dirs, x: DirId, d: DirId, k: nat)
    requires Up(dirs, x, k) == At(d) && forall j: nat :: j < k ==> Up(dirs, x, j) != At(d)
    requires forall y :: y != d && y in dirs ==> y in moved && moved[y] == dirs[y]
    ensures Up(moved, x, k) == At(d)
    decreases k
  {
    if k > 0 {
      assert Up(dirs, x, 0) == At(x);
      forall j: nat | j < k - 1 ensures Up(dirs, dirs[x].parentId, j) != At(d) {
        assert Up(dirs, x, j + 1) == Up(dirs, dirs[x].parentId, j);
      }
      UpUntil(dirs, moved, dirs[x].parentId, d, k - 1);
    }
  }

  /** When the destination lies k steps below d, the move closes a cycle, which no depth can count. */
  lemma CycleHasNoRank(dirs: Dirs, depth: map<DirId, nat>, d: DirId, dest: DirId, k: nat, rank: map<DirId, nat>)
    requires Ranked(dirs, depth) && d in dirs && Known(dirs, dest) && Up(dirs, dest, k) == At(d)
    ensures !Ranked(dirs[d := dirs[d].(parentId := dest)], rank)
  {
    var moved := dirs[d := dirs[d].(parentId := dest)];
    UpDepth(dirs, depth, dest, k);
    forall j: nat | j < k ensures Up(dirs, dest, j) != At(d) {
      UpDepth(dirs, depth, dest, j);
    }
    UpUntil(dirs, moved, dest, d, k);
    if Ranked(moved, rank) {
      UpDepth(moved, rank, dest, k);
    }
  }

  lemma UnderIsDeeper(dirs: Dirs, depth: map<DirId, nat>, x: DirId, d: DirId)
    requires Ranked(dirs, depth) && Known(dirs, x) && Under(dirs, x, d)
    ensures Known(dirs, d) && depth[x] >= depth[d]
  {
    var k: nat :| Up(dirs, x, k) == At(d);
    UpDepth(dirs, depth, x, k);
  }

  /** The depths after the subtree of d is hung below dest. */
  ghost function Rehung(dirs: Dirs, depth: map<DirId, nat>, d: DirId, dest: DirId): map<DirId, nat>
    requires Ranked(dirs, depth) && d in dirs && Known(dirs, dest)
  {
    map x | x in depth ::
      if x in dirs && Under(dirs, x, d) then
        UnderIsDeeper(dirs, depth, x, d);
        depth[x] - depth[d] + depth[dest] + 1
      else depth[x]
  }

  /** Moving a directory keeps the tree exactly when the destination does not lie in the moved subtree. */
  lemma MoveKeepsTreeIff(dirs: Dirs, d: DirId, dest: DirId)
    requires IsTree(dirs) && d in dirs && Known(dirs, dest)
    ensures IsTree(dirs[d := dirs[d].(parentId := dest)]) <==> !Under(dirs, dest, d)
  {
    var moved := dirs[d := dirs[d].(parentId := dest)];
    var depth :| Ranked(dirs, depth);
    if Under(dirs, dest, d) {
      var k: nat :| Up(dirs, dest, k) == At(d);
      forall rank ensures !Ranked(moved, rank) {
        CycleHasNoRank(dirs, depth, d, dest, k, rank);
      }
    } else {
      assert Up(dirs, d, 0) == At(d);
      forall x | x in dirs && x != d ensures Under(dirs, x, d) <==> Under(dirs, dirs[x].parentId, d) {
        if Under(dirs, dirs[x].parentId, d) {
          UnderParent(dirs, x, d);
        }
        if Under(dirs, x, d) {
          var k: nat :| Up(dirs, x, k) == At(d);
          assert Up(dirs, x, k) == Up(dirs, dirs[x].parentId, k - 1);
        }
      }
      assert Up(dirs, ROOT, 0) == At(ROOT);
      assert !Under(dirs, ROOT, d);
      assert Ranked(moved, Rehung(dirs, depth, d, dest));
    }
  }

  lemma {:induction false} HeightExists(ids: set<DirId>, depth: map<DirId, nat>) returns (height: nat)
    requires ids <= depth.Keys
    ensures forall x :: x in ids ==> depth[x] <= height
  {
    if ids == {} {
      height := 0;
    } else {
      var x :| x in ids;
      height := HeightExists(ids - {x}, depth);
      height := if depth[x] > height then depth[x] else height;
    }
  }

  /** Removing one more child subtree. */
  lemma InsideOneMore(dirs: Dirs, done: set<DirId>, c: DirId, x: DirId)
    requires ROOT !in dirs
    ensures Inside(dirs, x, done + {c}) <==>
      Inside(dirs, x, done) || (x !in Beneath(dirs, done) && Inside(dirs - Beneath(dirs, done), x, {c}))
  {
    var removed := Beneath(dirs, done);
    BeneathIsClosed(dirs, done);
    if x !in removed {
      UnderAfterRemoval(dirs, removed, x, c);
      assert Inside(dirs - removed, x, {c}) <==> Under(dirs, x, c);
    }
    assert Inside(dirs, x, done + {c}) <==> Inside(dirs, x, done) || Under(dirs, x, c) by {
      if Under(dirs, x, c) {
        assert c in done + {c};
      }
      forall d | d in done && Under(dirs, x, d) ensures Inside(dirs, x, done + {c}) {
        assert d in done + {c};
      }
    }
  }
}
