/** The position a block takes in the free list, and how the free list of the view relates to the
    walks of `list::allocate` and `list::deallocate`. */
module Ranks {
  import opened Layout
  import opened Blocks
  import opened Links
  import Seqs

  /** The number of free blocks before block `i`: the index block `i` has, or would have, in the free
      list. */
  function Rank(v: seq<Block>, i: nat): nat
    requires i <= |v|
  {
    |FreeStarts(v[..i])|
  }

  lemma RankStep(v: seq<Block>, i: nat)
    requires i < |v|
    ensures Rank(v, i + 1) == Rank(v, i) + (if v[i].free then 1 else 0)
  {
    Seqs.Snoc(v, i);
    FreeStartsAppend(v[..i], [v[i]]);
    SingleFilters(v[i]);
  }

  /** A free block sits in the free list at its rank. */
  lemma RankStart(v: seq<Block>, i: nat)
    requires i < |v| && v[i].free
    ensures Rank(v, i) < |FreeStarts(v)| && FreeStarts(v)[Rank(v, i)] == v[i].start
  {
    Around(v, i);
  }

  /** With distinct starts, the only index of the free list that holds a free block's start is its rank. */
  lemma RankOf(v: seq<Block>, i: nat, r: nat)
    requires Distinct(FreeStarts(v)) && i < |v| && v[i].free
    requires r < |FreeStarts(v)| && FreeStarts(v)[r] == v[i].start
    ensures r == Rank(v, i)
  {
    RankStart(v, i);
  }

  lemma RankBound(v: seq<Block>, i: nat)
    requires i <= |v|
    ensures Rank(v, i) <= |FreeStarts(v)|
  {
    Seqs.Halves(v, i);
    FreeStartsAppend(v[..i], v[i..]);
  }

  /** The rank does not move across a run of allocated blocks. */
  lemma {:induction false} RankFlat(v: seq<Block>, a: nat, b: nat)
    requires a <= b <= |v|
    requires forall k :: a <= k < b ==> !v[k].free
    ensures Rank(v, b) == Rank(v, a)
    decreases b - a
  {
    if a < b {
      RankStep(v, b - 1);
      RankFlat(v, a, b - 1);
    }
  }

  /** The rank never decreases along the view. */
  lemma {:induction false} RankMono(v: seq<Block>, a: nat, b: nat)
    requires a <= b <= |v|
    ensures Rank(v, a) <= Rank(v, b)
    decreases b - a
  {
    if a < b {
      RankStep(v, b - 1);
      RankMono(v, a, b - 1);
    }
  }

  /** The blocks of a tiling have distinct starts. */
  lemma StartsUnique(v: seq<Block>, lo: nat, hi: nat, a: nat, b: nat)
    requires Tiles(v, lo, hi) && a < |v| && b < |v| && v[a].start == v[b].start
    ensures a == b
  {
    if a != b {
      Disjoint(v, lo, hi, a, b);
    }
  }

  /** An allocated block's start is not in the free list. */
  lemma NotListed(v: seq<Block>, lo: nat, hi: nat, i: nat)
    requires Tiles(v, lo, hi) && i < |v| && !v[i].free
    ensures v[i].start !in FreeStarts(v)
  {
    if v[i].start in FreeStarts(v) {
      FreeStartsSound(v, v[i].start);
      var k :| 0 <= k < |v| && v[k].free && v[k].start == v[i].start;
      StartsUnique(v, lo, hi, k, i);
    }
  }

  /** No block starts strictly inside another. */
  lemma Interior(v: seq<Block>, lo: nat, hi: nat, i: nat, x: nat)
    requires Tiles(v, lo, hi) && i < |v| && v[i].start < x < End(v[i])
    ensures forall k :: 0 <= k < |v| ==> v[k].start != x
  {
    Ordered(v, lo, hi);
  }

  /** The free block that follows block `i` in the free list starts where block `i` ends exactly when
      the address successor of block `i` is free, and it is then that successor. */
  lemma NextFreeAbuts(v: seq<Block>, lo: nat, hi: nat, i: nat)
    requires Tiles(v, lo, hi) && i < |v|
    ensures (Rank(v, i + 1) < |FreeStarts(v)| && FreeStarts(v)[Rank(v, i + 1)] == End(v[i])) <==> JoinsNext(v, i)
    ensures JoinsNext(v, i) ==> Rank(v, i + 1) < |FreeStarts(v)| && FreeStarts(v)[Rank(v, i + 1)] == v[i + 1].start
  {
    var r := Rank(v, i + 1);
    if JoinsNext(v, i) {
      RankStart(v, i + 1);
    } else if r < |FreeStarts(v)| && FreeStarts(v)[r] == End(v[i]) {
      FreeStartsIndex(v, r);
      var k :| 0 <= k < |v| && v[k].free && v[k].start == FreeStarts(v)[r] && |FreeStarts(v[..k])| == r;
      Ordered(v, lo, hi);
      if i + 1 < |v| {
        StartsUnique(v, lo, hi, k, i + 1);
      }
      assert false;
    }
  }

  /** When block `k` is the nearest free block before block `i`, it ends where block `i` starts exactly
      when the address predecessor of block `i` is free, and it is then that predecessor. */
  lemma PrevFreeAbuts(v: seq<Block>, lo: nat, hi: nat, k: nat, i: nat)
    requires Tiles(v, lo, hi) && k < i < |v| && v[k].free
    requires forall m :: k < m < i ==> !v[m].free
    ensures End(v[k]) == v[i].start <==> JoinsPrev(v, i)
    ensures JoinsPrev(v, i) ==> k == i - 1
  {
    if k < i - 1 {
      OrderedFrom(v, lo, hi, k, i - 1);
      assert !v[i - 1].free;
    }
  }

  /** A free block that fits, with every earlier free block too small, is the first fit. */
  lemma FirstFitAt(v: seq<Block>, fp: nat, i: nat)
    requires i < |v| && v[i].free && v[i].size >= fp
    requires forall k :: 0 <= k < i && v[k].free ==> v[k].size < fp
    ensures FirstFit(v, fp) == i
  {
  }

  /** With every free block too small there is no fit. */
  lemma FirstFitNone(v: seq<Block>, fp: nat)
    requires forall k :: 0 <= k < |v| && v[k].free ==> v[k].size < fp
    ensures FirstFit(v, fp) == |v|
  {
  }

  /** Allocation from free block `i` removes its start from the free list and, when the block is
      split, puts the remainder's start in its place. */
  lemma CarveFreeList(v: seq<Block>, i: nat, fp: nat)
    requires i < |v| && v[i].free && fp <= v[i].size
    ensures Rank(v, i) < |FreeStarts(v)| && FreeStarts(v)[Rank(v, i)] == v[i].start
    ensures Splits(v, i, fp) ==>
              Drop(InsertAt(FreeStarts(v), Rank(v, i) + 1, v[i].start + fp), Rank(v, i)) == FreeStarts(Carve(v, i, fp))
    ensures !Splits(v, i, fp) ==> Drop(FreeStarts(v), Rank(v, i)) == FreeStarts(Carve(v, i, fp))
  {
    RankStart(v, i);
    if Splits(v, i, fp) {
      CarveSplitFreeList(v, i, fp);
    } else {
      CarveWholeFreeList(v, i, fp);
    }
  }

  /** `CarveFreeList` for a split, with the rank and the remainder's start named. */
  lemma CarveSplitList(v: seq<Block>, i: nat, fp: nat, r: nat, t: nat)
    requires i < |v| && v[i].free && fp <= v[i].size && Splits(v, i, fp)
    requires r == Rank(v, i) && t == v[i].start + fp
    ensures r < |FreeStarts(v)| && Drop(InsertAt(FreeStarts(v), r + 1, t), r) == FreeStarts(Carve(v, i, fp))
  {
    CarveFreeList(v, i, fp);
  }

  lemma CarveSplitFreeList(v: seq<Block>, i: nat, fp: nat)
    requires i < |v| && v[i].free && fp <= v[i].size && Splits(v, i, fp)
    ensures Rank(v, i) < |FreeStarts(v)|
    ensures Drop(InsertAt(FreeStarts(v), Rank(v, i) + 1, v[i].start + fp), Rank(v, i)) == FreeStarts(Carve(v, i, fp))
  {
    CarveFreeStarts(v, i, fp);
    InsertThenDrop(FreeStarts(v[..i]), v[i].start, v[i].start + fp, FreeStarts(v[i + 1..]));
  }

  lemma CarveWholeFreeList(v: seq<Block>, i: nat, fp: nat)
    requires i < |v| && v[i].free && fp <= v[i].size && !Splits(v, i, fp)
    ensures Rank(v, i) < |FreeStarts(v)|
    ensures Drop(FreeStarts(v), Rank(v, i)) == FreeStarts(Carve(v, i, fp))
  {
    CarveFreeStarts(v, i, fp);
    Seqs.EmptyMiddle(FreeStarts(v[..i]), FreeStarts(v[i + 1..]));
    DropSplit(FreeStarts(v[..i]), v[i].start, FreeStarts(v[i + 1..]));
  }

  /** Release of allocated block `i` inserts its start into the free list at its rank, then drops the
      successor's start when it absorbs its successor and its own when its predecessor absorbs it. */
  lemma ReleaseFreeList(v: seq<Block>, lo: nat, hi: nat, i: nat)
    requires Tiles(v, lo, hi) && i < |v| && !v[i].free
    ensures JoinsNext(v, i) ==> Rank(v, i) < |FreeStarts(v)|
    ensures JoinsPrev(v, i) ==> Rank(v, i) > 0
    ensures Rank(v, i) <= |FreeStarts(v)|
    ensures Joined(InsertAt(FreeStarts(v), Rank(v, i), v[i].start), Rank(v, i), JoinsNext(v, i), JoinsPrev(v, i))
            == FreeStarts(Release(v, i))
  {
    RankBound(v, i);
    if JoinsPrev(v, i) {
      RankStep(v, i - 1);
    }
    ReleaseFreeListCases(v, i);
  }

  lemma ReleaseFreeListCases(v: seq<Block>, i: nat)
    requires i < |v| && !v[i].free
    requires Rank(v, i) == Rank(v, ReleaseFirst(v, i)) + (if JoinsPrev(v, i) then 1 else 0)
    ensures JoinsNext(v, i) ==> Rank(v, i) < |FreeStarts(v)|
    ensures Rank(v, i) <= |FreeStarts(v)|
    ensures Joined(InsertAt(FreeStarts(v), Rank(v, i), v[i].start), Rank(v, i), JoinsNext(v, i), JoinsPrev(v, i))
            == FreeStarts(Release(v, i))
  {
    ReleaseFreeStarts(v, i);
    if JoinsNext(v, i) && JoinsPrev(v, i) {
      ReleaseBoth(v, i);
    } else if JoinsNext(v, i) {
      ReleaseNext(v, i);
    } else if JoinsPrev(v, i) {
      ReleasePrev(v, i);
    } else {
      ReleaseNone(v, i);
    }
  }

  lemma ReleaseBoth(v: seq<Block>, i: nat)
    requires i < |v| && !v[i].free && JoinsNext(v, i) && JoinsPrev(v, i)
    requires Rank(v, i) < |FreeStarts(v)|
    requires Rank(v, i) == Rank(v, i - 1) + 1
    ensures Joined(InsertAt(FreeStarts(v), Rank(v, i), v[i].start), Rank(v, i), true, true) == FreeStarts(Release(v, i))
  {
    ReleaseFreeStarts(v, i);
    JoinBoth(FreeStarts(v[..i - 1]), v[i - 1].start, v[i].start, v[i + 1].start, FreeStarts(v[i + 2..]));
  }

  lemma ReleaseNext(v: seq<Block>, i: nat)
    requires i < |v| && !v[i].free && JoinsNext(v, i) && !JoinsPrev(v, i)
    requires Rank(v, i) < |FreeStarts(v)|
    ensures Joined(InsertAt(FreeStarts(v), Rank(v, i), v[i].start), Rank(v, i), true, false) == FreeStarts(Release(v, i))
  {
    ReleaseFreeStarts(v, i);
    JoinNext(FreeStarts(v[..i]), v[i].start, v[i + 1].start, FreeStarts(v[i + 2..]));
  }

  lemma ReleasePrev(v: seq<Block>, i: nat)
    requires i < |v| && !v[i].free && !JoinsNext(v, i) && JoinsPrev(v, i)
    requires Rank(v, i) <= |FreeStarts(v)|
    requires Rank(v, i) == Rank(v, i - 1) + 1
    ensures Joined(InsertAt(FreeStarts(v), Rank(v, i), v[i].start), Rank(v, i), false, true) == FreeStarts(Release(v, i))
  {
    ReleaseFreeStarts(v, i);
    JoinPrev(FreeStarts(v[..i - 1]), v[i - 1].start, v[i].start, FreeStarts(v[i + 1..]));
  }

  lemma ReleaseNone(v: seq<Block>, i: nat)
    requires i < |v| && !v[i].free && !JoinsNext(v, i) && !JoinsPrev(v, i)
    requires Rank(v, i) <= |FreeStarts(v)|
    ensures Joined(InsertAt(FreeStarts(v), Rank(v, i), v[i].start), Rank(v, i), false, false) == FreeStarts(Release(v, i))
  {
    ReleaseFreeStarts(v, i);
    JoinNone(FreeStarts(v[..i]), v[i].start, FreeStarts(v[i + 1..]));
  }

  /** The sequence identities behind `ReleaseFreeList`, one for each pair of free neighbours. */
  lemma JoinBoth(P: seq<nat>, u: nat, h: nat, y: nat, S: seq<nat>)
    ensures Joined(InsertAt(P + ([u] + [y]) + S, |P| + 1, h), |P| + 1, true, true) == P + [u] + S
  {
    var k := |P| + 1;
    var s := P + ([u] + [y]) + S;
    assert s[..k] == P + [u];
    assert s[k..] == [y] + S;
    var ins := InsertAt(s, k, h);
    assert ins == (P + [u]) + [h] + ([y] + S);
    var k1 := Drop(ins, k + 1);
    assert ins[..k + 1] == P + [u] + [h];
    assert ins[k + 2..] == S;
    assert k1[..k] == P + [u];
    assert k1[k + 1..] == S;
  }

  lemma JoinNext(P: seq<nat>, h: nat, y: nat, S: seq<nat>)
    ensures Joined(InsertAt(P + ([] + [y]) + S, |P|, h), |P|, true, false) == P + [h] + S
  {
    var s := P + ([] + [y]) + S;
    assert s == P + ([y] + S);
    InsertSplit(P, [y] + S, h);
    assert InsertAt(s, |P|, h) == (P + [h]) + [y] + S;
    DropSplit(P + [h], y, S);
  }

  lemma JoinPrev(P: seq<nat>, u: nat, h: nat, S: seq<nat>)
    ensures Joined(InsertAt(P + ([u] + []) + S, |P| + 1, h), |P| + 1, false, true) == P + [u] + S
  {
    var s := P + ([u] + []) + S;
    assert s == (P + [u]) + S;
    InsertSplit(P + [u], S, h);
    assert InsertAt(s, |P| + 1, h) == (P + [u]) + [h] + S;
    DropSplit(P + [u], h, S);
  }

  lemma JoinNone(P: seq<nat>, h: nat, S: seq<nat>)
    ensures Joined(InsertAt(P + ([] + []) + S, |P|, h), |P|, false, false) == P + [h] + S
  {
    var s := P + ([] + []) + S;
    assert s == P + S;
    InsertSplit(P, S, h);
  }

  lemma InsertThenDrop(pre: seq<nat>, x: nat, t: nat, post: seq<nat>)
    ensures Drop(InsertAt(pre + [x] + post, |pre| + 1, t), |pre|) == pre + [t] + post
  {
    var k := |pre|;
    var s := pre + [x] + post;
    assert s[..k + 1] == pre + [x];
    assert s[k + 1..] == post;
    var ins := InsertAt(s, k + 1, t);
    assert ins == (pre + [x]) + [t] + post;
    assert ins[..k] == pre;
    assert ins[k + 1..] == [t] + post;
  }

  lemma InsertSplit(a: seq<nat>, b: seq<nat>, x: nat)
    ensures InsertAt(a + b, |a|, x) == a + ([x] + b)
  {
    assert (a + b)[..|a|] == a && (a + b)[|a|..] == b;
  }

  lemma DropSplit(a: seq<nat>, x: nat, b: seq<nat>)
    ensures Drop(a + [x] + b, |a|) == a + b
  {
    var s := a + [x] + b;
    assert s[..|a|] == a && s[|a| + 1..] == b;
  }
}
