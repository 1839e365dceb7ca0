/** The block view of the engine's header maps: the size word stored at each header address, read in
    the order of the full block list. */
module Views {
  import opened Layout
  import opened Blocks
  import opened Links

  type SizeMap = map<nat, nat>

  /** The size word stored at `a`; zero where none is. */
  function Word(size: SizeMap, a: nat): nat
  {
    if a in size then size[a] else 0
  }

  /** The block whose header sits at `a`. */
  function BlockAt(size: SizeMap, a: nat): Block
  {
    Block(a, Size(Word(size, a)), IsFree(Word(size, a)))
  }

  /** The blocks whose headers sit at the addresses `ks`, in that order. */
  function ViewOf(size: SizeMap, ks: seq<nat>): (v: seq<Block>)
    ensures |v| == |ks|
  {
    seq(|ks|, k requires 0 <= k < |ks| => BlockAt(size, ks[k]))
  }

  /** Every address of `ks` holds a size word. */
  predicate Sized(size: SizeMap, ks: seq<nat>)
  {
    forall k :: 0 <= k < |ks| ==> ks[k] in size
  }

  /** The size words after `merge_next` on `n` absorbs its successor `q`: `n` grows by the packed
      word of `q`, and `q` is flagged allocated as it leaves the free list. */
  function Absorb(size: SizeMap, n: nat, q: nat): SizeMap
  {
    var wn, wq := Word(size, n), Word(size, q);
    var flagged := Taken(wq);
    size[n := wn + wq][q := flagged]
  }

  /** The size words after `merge` on element `i` of `ks`: first `i` absorbs its successor when
      `next`, then its predecessor absorbs it when `prev`. */
  function JoinedSizes(size: SizeMap, ks: seq<nat>, i: nat, next: bool, prev: bool): SizeMap
    requires i < |ks| && (next ==> i + 1 < |ks|) && (prev ==> i > 0)
  {
    var s1 := if next then Absorb(size, ks[i], ks[i + 1]) else size;
    if prev then Absorb(s1, ks[i - 1], ks[i]) else s1
  }

  /** `merge` rewrites words but removes none. */
  lemma JoinedKeys(size: SizeMap, ks: seq<nat>, i: nat, next: bool, prev: bool)
    requires i < |ks| && (next ==> i + 1 < |ks|) && (prev ==> i > 0)
    ensures size.Keys <= JoinedSizes(size, ks, i, next, prev).Keys
  {
  }

  /** The headers of a tiling view are at distinct addresses. */
  lemma ViewDistinct(size: SizeMap, ks: seq<nat>, lo: nat, hi: nat)
    requires Tiles(ViewOf(size, ks), lo, hi)
    ensures Distinct(ks)
  {
    var v := ViewOf(size, ks);
    Ordered(v, lo, hi);
    forall a, b | 0 <= a < b < |ks|
      ensures ks[a] != ks[b]
    {
      assert v[a].start == ks[a] && v[b].start == ks[b];
    }
  }

  /** Rewriting the words of a window of headers and relinking them replaces the window of the view. */
  lemma ViewReplaced(size: SizeMap, fin: SizeMap, ks: seq<nat>, p: nat, q: nat, mk: seq<nat>)
    requires p <= q <= |ks|
    requires forall k :: 0 <= k < p ==> Word(fin, ks[k]) == Word(size, ks[k])
    requires forall k :: q <= k < |ks| ==> Word(fin, ks[k]) == Word(size, ks[k])
    ensures ViewOf(fin, ks[..p] + mk + ks[q..]) == Replaced(ViewOf(size, ks), p, q, ViewOf(fin, mk))
  {
    ViewPrefix(size, fin, ks, p);
    ViewSuffix(size, fin, ks, q);
    ViewJoin(fin, ks[..p], mk, ks[q..]);
  }

  lemma ViewJoin(size: SizeMap, a: seq<nat>, b: seq<nat>, c: seq<nat>)
    ensures ViewOf(size, a + b + c) == ViewOf(size, a) + ViewOf(size, b) + ViewOf(size, c)
  {
    ViewConcat(size, a + b, c);
    ViewConcat(size, a, b);
  }

  lemma ViewPrefix(size: SizeMap, fin: SizeMap, ks: seq<nat>, p: nat)
    requires p <= |ks|
    requires forall k :: 0 <= k < p ==> Word(fin, ks[k]) == Word(size, ks[k])
    ensures ViewOf(fin, ks[..p]) == ViewOf(size, ks)[..p]
  {
    var w, v := ViewOf(fin, ks[..p]), ViewOf(size, ks)[..p];
    forall k | 0 <= k < p
      ensures w[k] == v[k]
    {
      assert ks[..p][k] == ks[k];
    }
  }

  lemma ViewSuffix(size: SizeMap, fin: SizeMap, ks: seq<nat>, q: nat)
    requires q <= |ks|
    requires forall k :: q <= k < |ks| ==> Word(fin, ks[k]) == Word(size, ks[k])
    ensures ViewOf(fin, ks[q..]) == ViewOf(size, ks)[q..]
  {
    var w, v := ViewOf(fin, ks[q..]), ViewOf(size, ks)[q..];
    forall k | 0 <= k < |w|
      ensures w[k] == v[k]
    {
      assert ks[q..][k] == ks[q + k];
    }
  }

  /** The view of a concatenation is the concatenation of the views. */
  lemma ViewConcat(size: SizeMap, a: seq<nat>, b: seq<nat>)
    ensures ViewOf(size, a + b) == ViewOf(size, a) + ViewOf(size, b)
  {
    var w, l, r := ViewOf(size, a + b), ViewOf(size, a), ViewOf(size, b);
    forall k | 0 <= k < |w|
      ensures w[k] == (l + r)[k]
    {
      if k < |a| {
        assert (a + b)[k] == a[k];
      } else {
        assert (a + b)[k] == b[k - |a|];
      }
    }
  }

  /** The view after `fp` bytes are carved out of free block `i` and the rest is split off is `Carve`:
      the header `t = ks[i] + fp` of the remainder joins the list after `ks[i]`, holding the old word
      less `fp`, and `ks[i]` holds `fp` flagged allocated. */
  lemma CarveSplitView(size: SizeMap, fin: SizeMap, ks: seq<nat>, i: nat, fp: nat)
    requires i < |ks| && ViewOf(size, ks)[i].free && fp <= ViewOf(size, ks)[i].size
    requires Splits(ViewOf(size, ks), i, fp) && ViewOf(size, ks)[i].size % 2 == 0 && fp % 2 == 0
    requires forall k :: 0 <= k < |ks| && k != i ==> Word(fin, ks[k]) == Word(size, ks[k])
    requires Word(fin, ks[i] + fp) == Word(size, ks[i]) - fp && Word(fin, ks[i]) == Taken(fp)
    ensures ViewOf(fin, InsertAt(ks, i + 1, ks[i] + fp)) == Carve(ViewOf(size, ks), i, fp)
  {
    var v := ViewOf(size, ks);
    var n := ks[i];
    var t := n + fp;
    assert v[i] == BlockAt(size, n);
    assert ks[..i + 1] == ks[..i] + [n];
    assert InsertAt(ks, i + 1, t) == ks[..i] + [n, t] + ks[i + 1..];
    ViewReplaced(size, fin, ks, i, i + 1, [n, t]);
    assert ViewOf(fin, [n, t]) == CarvedWindow(v, i, fp);
  }

  /** The view after free block `i` is allocated whole is `Carve`: `ks[i]` keeps its size, flagged
      allocated. */
  lemma CarveWholeView(size: SizeMap, fin: SizeMap, ks: seq<nat>, i: nat, fp: nat)
    requires i < |ks| && ViewOf(size, ks)[i].free && fp <= ViewOf(size, ks)[i].size
    requires !Splits(ViewOf(size, ks), i, fp)
    requires forall k :: 0 <= k < |ks| && k != i ==> Word(fin, ks[k]) == Word(size, ks[k])
    requires Word(fin, ks[i]) == Taken(Word(size, ks[i]))
    ensures ViewOf(fin, ks) == Carve(ViewOf(size, ks), i, fp)
  {
    WholeWindow(size, fin, ks, i, fp);
    Seqs.Around(ks, i);
    ViewReplaced(size, fin, ks, i, i + 1, [ks[i]]);
  }

  /** The header of a block allocated whole reads as the one block of its carved window. */
  lemma WholeWindow(size: SizeMap, fin: SizeMap, ks: seq<nat>, i: nat, fp: nat)
    requires i < |ks| && ViewOf(size, ks)[i].free && fp <= ViewOf(size, ks)[i].size
    requires !Splits(ViewOf(size, ks), i, fp)
    requires Word(fin, ks[i]) == Taken(Word(size, ks[i]))
    ensures ViewOf(fin, [ks[i]]) == CarvedWindow(ViewOf(size, ks), i, fp)
  {
    TakenBlock(size, fin, ks[i]);
  }

  /** A header whose word is flagged allocated keeps its block's size. */
  lemma TakenBlock(size: SizeMap, fin: SizeMap, n: nat)
    requires Word(fin, n) == Taken(Word(size, n))
    ensures BlockAt(fin, n) == Block(n, BlockAt(size, n).size, false)
  {
    PackedWord(Word(size, n));
  }

  /** `Joined` keeps the elements before the merged run, one element for the run, and the rest. */
  lemma JoinedSlices(ks: seq<nat>, i: nat, next: bool, prev: bool)
    requires i < |ks| && (next ==> i + 1 < |ks|) && (prev ==> i > 0)
    ensures var first, last := (if prev then i - 1 else i), (if next then i + 1 else i);
            Joined(ks, i, next, prev) == ks[..first] + [ks[first]] + ks[last + 1..]
  {
    var k1 := if next then Drop(ks, i + 1) else ks;
    if next {
      assert k1 == ks[..i + 1] + ks[i + 2..];
    } else {
      assert ks == ks[..i + 1] + ks[i + 1..];
    }
    assert k1 == ks[..i + 1] + ks[(if next then i + 2 else i + 1)..];
    if prev {
      assert k1[..i] == ks[..i];
      assert ks[..i] == ks[..i - 1] + [ks[i - 1]];
      assert Drop(k1, i) == ks[..i - 1] + [ks[i - 1]] + ks[(if next then i + 2 else i + 1)..];
    } else {
      assert ks[..i + 1] == ks[..i] + [ks[i]];
    }
  }

  /** The size words after `deallocate` sets block `i` free and `merge` joins it with whichever of
      its address neighbours are free. */
  function ReleasedSizes(size: SizeMap, ks: seq<nat>, i: nat): SizeMap
    requires i < |ks|
  {
    var v := ViewOf(size, ks);
    JoinedSizes(size[ks[i] := Freed(Word(size, ks[i]))], ks, i, JoinsNext(v, i), JoinsPrev(v, i))
  }

  /** The view after `deallocate` sets block `i` free and `merge` joins it with its free neighbours is
      `Release`. */
  lemma ReleaseView(size: SizeMap, ks: seq<nat>, i: nat)
    requires Distinct(ks) && EvenSizes(ViewOf(size, ks)) && i < |ks| && !ViewOf(size, ks)[i].free
    ensures ViewOf(ReleasedSizes(size, ks, i), Joined(ks, i, JoinsNext(ViewOf(size, ks), i), JoinsPrev(ViewOf(size, ks), i)))
            == Release(ViewOf(size, ks), i)
  {
    var v := ViewOf(size, ks);
    var fin := ReleasedSizes(size, ks, i);
    var first, last := ReleaseFirst(v, i), ReleaseLast(v, i);
    MergedWord(size, ks, i);
    ReleaseFrames(size, ks, i);
    ReleaseReplaced(size, fin, ks, i, JoinsNext(v, i), JoinsPrev(v, i), first, last);
  }

  /** Rewriting the words of a run of headers alone and joining the run rewrites the view in the
      window of the run alone. */
  lemma ReleaseReplaced(size: SizeMap, fin: SizeMap, ks: seq<nat>, i: nat, c1: bool, c2: bool, first: nat, last: nat)
    requires i < |ks| && (c1 ==> i + 1 < |ks|) && (c2 ==> i > 0)
    requires first == (if c2 then i - 1 else i) && last == (if c1 then i + 1 else i)
    requires forall k :: 0 <= k < |ks| && (k < first || k > last) ==> Word(fin, ks[k]) == Word(size, ks[k])
    ensures ViewOf(fin, Joined(ks, i, c1, c2)) == Replaced(ViewOf(size, ks), first, last + 1, ViewOf(fin, [ks[first]]))
  {
    JoinedSlices(ks, i, c1, c2);
    ViewReplaced(size, fin, ks, first, last + 1, [ks[first]]);
  }

  /** Outside the merged run, release leaves the words as they were. */
  lemma ReleaseFrames(size: SizeMap, ks: seq<nat>, i: nat)
    requires Distinct(ks) && i < |ks|
    ensures forall k :: 0 <= k < |ks| && (k < ReleaseFirst(ViewOf(size, ks), i) || k > ReleaseLast(ViewOf(size, ks), i)) ==>
              Word(ReleasedSizes(size, ks, i), ks[k]) == Word(size, ks[k])
  {
    var v := ViewOf(size, ks);
    forall k | 0 <= k < |ks| && (k < ReleaseFirst(v, i) || k > ReleaseLast(v, i))
      ensures Word(ReleasedSizes(size, ks, i), ks[k]) == Word(size, ks[k])
    {
      ReleaseFrame(size, ks, i, JoinsNext(v, i), JoinsPrev(v, i), k);
    }
  }

  lemma ReleaseFrame(size: SizeMap, ks: seq<nat>, i: nat, c1: bool, c2: bool, k: nat)
    requires Distinct(ks) && i < |ks| && (c1 ==> i + 1 < |ks|) && (c2 ==> i > 0) && k < |ks|
    requires k < (if c2 then i - 1 else i) || k > (if c1 then i + 1 else i)
    ensures Word(JoinedSizes(size[ks[i] := Freed(Word(size, ks[i]))], ks, i, c1, c2), ks[k]) == Word(size, ks[k])
  {
    var s1 := size[ks[i] := Freed(Word(size, ks[i]))];
    assert ks[k] != ks[i];
    assert c1 ==> ks[k] != ks[i + 1];
    assert c2 ==> ks[k] != ks[i - 1];
    WordFrame(size, ks[i], Freed(Word(size, ks[i])), ks[k]);
    JoinedSizesFrame(s1, ks, i, c1, c2, ks[k]);
  }

  /** Storing back the word a header already holds changes nothing. */
  lemma SameWord(size: SizeMap, a: nat)
    requires a in size
    ensures size[a := Word(size, a)] == size
  {
  }

  lemma WordFrame(size: SizeMap, a: nat, w: nat, b: nat)
    requires a != b
    ensures Word(size[a := w], b) == Word(size, b)
  {
  }

  /** `merge` rewrites only the words of the run it merges. */
  lemma JoinedSizesFrame(size: SizeMap, ks: seq<nat>, i: nat, next: bool, prev: bool, a: nat)
    requires i < |ks| && (next ==> i + 1 < |ks|) && (prev ==> i > 0)
    requires a != ks[i] && (next ==> a != ks[i + 1]) && (prev ==> a != ks[i - 1])
    ensures Word(JoinedSizes(size, ks, i, next, prev), a) == Word(size, a)
  {
  }

  /** The word left at the head of the merged run is the merged block's, free. */
  lemma MergedWord(size: SizeMap, ks: seq<nat>, i: nat)
    requires Distinct(ks) && EvenSizes(ViewOf(size, ks)) && i < |ks| && !ViewOf(size, ks)[i].free
    ensures ViewOf(ReleasedSizes(size, ks, i), [ks[ReleaseFirst(ViewOf(size, ks), i)]]) == [Merged(ViewOf(size, ks), i)]
  {
    var v := ViewOf(size, ks);
    var c1, c2 := JoinsNext(v, i), JoinsPrev(v, i);
    var s1 := size[ks[i] := Freed(Word(size, ks[i]))];
    var fin := ReleasedSizes(size, ks, i);
    JoinedWord(s1, ks, i, c1, c2);
    assert v[i] == BlockAt(size, ks[i]);
    var own := v[i].size;
    assert Word(s1, ks[i]) == own;
    var q := if c1 then v[i + 1].size else 0;
    var p := if c2 then v[i - 1].size else 0;
    if c1 {
      assert v[i + 1] == BlockAt(size, ks[i + 1]) && ks[i + 1] != ks[i];
      PackedWord(Word(size, ks[i + 1]));
      assert Word(s1, ks[i + 1]) == q;
    }
    if c2 {
      assert v[i - 1] == BlockAt(size, ks[i - 1]) && ks[i - 1] != ks[i];
      PackedWord(Word(size, ks[i - 1]));
      assert Word(s1, ks[i - 1]) == p;
    }
    var first := ReleaseFirst(v, i);
    assert Word(fin, ks[first]) == p + own + q;
    EvenSum(p, own, q);
    PackedWord(p + own + q);
    assert BlockAt(fin, ks[first]) == Merged(v, i);
  }

  /** The word `merge` leaves at the head of the run it joins is the sum of the run's words. */
  lemma JoinedWord(s1: SizeMap, ks: seq<nat>, i: nat, c1: bool, c2: bool)
    requires Distinct(ks) && i < |ks| && (c1 ==> i + 1 < |ks|) && (c2 ==> i > 0)
    ensures Word(JoinedSizes(s1, ks, i, c1, c2), ks[if c2 then i - 1 else i])
            == (if c2 then Word(s1, ks[i - 1]) else 0) + Word(s1, ks[i]) + (if c1 then Word(s1, ks[i + 1]) else 0)
  {
    assert c1 ==> ks[i + 1] != ks[i];
    assert c2 ==> ks[i - 1] != ks[i];
    assert c1 && c2 ==> ks[i - 1] != ks[i + 1];
  }
}
