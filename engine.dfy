/** The `list` engine of `allocator<std::byte>`: the headers of an arena threaded into the full block
    list and the free list, a first-free pointer and the count of allocated bytes.

    Each header field of every node is a map from the node's address: `next`/`prev` are
    `m_header.m_next`/`m_prev`, `size` is the packed `m_header.m_size`, `nextFree`/`prevFree` are
    `m_next_free`/`m_prev_free`. The ghost sequences `blocks` and `freeBlocks` are the addresses the two
    lists visit, in order; `View()` reads the blocks out of the size words. */
module Engine {
  import opened Layout
  import opened Blocks
  import opened Links
  import opened Views
  import opened Ranks

  /** The test `merge` makes on the node `fb[r]` of a free list before `merge_next`: its successor
      on the free list starts where its stored size word says it ends. */
  predicate MergesNext(size: SizeMap, fb: seq<nat>, r: nat)
    requires r < |fb|
  {
    r + 1 < |fb| && fb[r] + Word(size, fb[r]) == fb[r + 1]
  }

  /** The test `merge` makes before its predecessor on the free list absorbs it. */
  predicate MergesPrev(size: SizeMap, fb: seq<nat>, r: nat)
    requires r < |fb|
  {
    r > 0 && fb[r - 1] + Word(size, fb[r - 1]) == fb[r]
  }

  /** The layout of a quiescent engine: the words of the headers `ks` are stored and their blocks tile
      `[lo, hi)` with aligned, even, coalesced blocks; `fks`, which `firstFree` heads, visits exactly the
      free blocks in address order; and `bytes`, `m_allocated`, counts the bytes of the allocated
      blocks, headers included. */
  predicate Arranged(size: SizeMap, ks: seq<nat>, fks: seq<nat>, firstFree: Ptr, bytes: nat, lo: nat, hi: nat)
  {
    var v := ViewOf(size, ks);
    && Sized(size, ks)
    && Tiles(v, lo, hi) && EvenSizes(v) && Aligned(v) && Coalesced(v)
    && fks == FreeStarts(v) && firstFree == Head(fks)
    && bytes == AllocatedBytes(v)
  }

  /** The header that `split` creates strictly inside block `i` is on neither list. */
  lemma SplitFresh(size: SizeMap, ks: seq<nat>, lo: nat, hi: nat, i: nat, fp: nat)
    requires Tiles(ViewOf(size, ks), lo, hi) && i < |ks| && 0 < fp < ViewOf(size, ks)[i].size
    ensures ks[i] + fp !in ks && ks[i] + fp !in FreeStarts(ViewOf(size, ks))
  {
    var v := ViewOf(size, ks);
    Interior(v, lo, hi, i, ks[i] + fp);
    forall k | 0 <= k < |ks|
      ensures ks[k] != ks[i] + fp
    {
      assert v[k].start == ks[k];
    }
    if ks[i] + fp in FreeStarts(v) {
      FreeStartsSound(v, ks[i] + fp);
    }
  }

  /** The free block after a free block `i` does not start where block `i` ends. */
  lemma SplitNoMerge(v: seq<Block>, lo: nat, hi: nat, i: nat)
    requires Tiles(v, lo, hi) && Coalesced(v) && i < |v| && v[i].free
    ensures Rank(v, i) + 1 < |FreeStarts(v)| ==> FreeStarts(v)[Rank(v, i) + 1] != End(v[i])
  {
    RankStep(v, i);
    NextFreeAbuts(v, lo, hi, i);
  }

  /** The words `allocate` leaves when it splits free block `i` at `fp` and takes the front part: the
      remainder holds the rest of the word, and the front holds `fp` flagged allocated. */
  lemma TakeSplitView(s0: SizeMap, ks: seq<nat>, lo: nat, hi: nat, i: nat, fp: nat)
    requires Tiles(ViewOf(s0, ks), lo, hi) && i < |ks| && ViewOf(s0, ks)[i].free
    requires fp <= ViewOf(s0, ks)[i].size && Splits(ViewOf(s0, ks), i, fp)
    requires ViewOf(s0, ks)[i].size % 2 == 0 && fp % 2 == 0 && fp > 0
    ensures var n := ks[i];
            ViewOf(s0[n + fp := Word(s0, n) - fp][n := fp][n := Taken(fp)], InsertAt(ks, i + 1, n + fp))
            == Carve(ViewOf(s0, ks), i, fp)
  {
    var n, v := ks[i], ViewOf(s0, ks);
    var fin := s0[n + fp := Word(s0, n) - fp][n := fp][n := Taken(fp)];
    PackedWord(Word(s0, n));
    SplitFresh(s0, ks, lo, hi, i, fp);
    ViewDistinct(s0, ks, lo, hi);
    forall k | 0 <= k < |ks| && k != i
      ensures Word(fin, ks[k]) == Word(s0, ks[k])
    {
      assert ks[k] != n && ks[k] != n + fp;
    }
    CarveSplitView(s0, fin, ks, i, fp);
  }

  /** The word `allocate` leaves when it takes free block `i` whole: flagged allocated. */
  lemma TakeWholeView(s0: SizeMap, ks: seq<nat>, lo: nat, hi: nat, i: nat, fp: nat)
    requires Tiles(ViewOf(s0, ks), lo, hi) && i < |ks| && ViewOf(s0, ks)[i].free
    requires fp <= ViewOf(s0, ks)[i].size && !Splits(ViewOf(s0, ks), i, fp)
    ensures ViewOf(s0[ks[i] := Taken(Word(s0, ks[i]))], ks) == Carve(ViewOf(s0, ks), i, fp)
  {
    var n := ks[i];
    var fin := s0[n := Taken(Word(s0, n))];
    ViewDistinct(s0, ks, lo, hi);
    forall k | 0 <= k < |ks| && k != i
      ensures Word(fin, ks[k]) == Word(s0, ks[k])
    {
      assert ks[k] != n;
    }
    CarveWholeView(s0, fin, ks, i, fp);
  }

  /** Allocation from free block `i`, split at `fp`, keeps the layout: the words, lists, first free
      header and count that `allocate` leaves are `Arranged` and read as `Carve`. */
  lemma TakeSplitArranged(s0: SizeMap, ks: seq<nat>, fks: seq<nat>, ff: Ptr, bytes: nat, lo: nat, hi: nat,
                          i: nat, r: nat, fp: nat, fin: SizeMap, ks': seq<nat>, fks': seq<nat>, ff': Ptr, bytes': nat)
    requires Arranged(s0, ks, fks, ff, bytes, lo, hi) && Distinct(fks)
    requires i < |ks| && ViewOf(s0, ks)[i].free && fp <= ViewOf(s0, ks)[i].size && Splits(ViewOf(s0, ks), i, fp)
    requires fp % A == 0 && N <= fp && r < |fks| && fks[r] == ks[i]
    requires fin == s0[ks[i] + fp := Word(s0, ks[i]) - fp][ks[i] := fp][ks[i] := Taken(fp)]
    requires ks' == InsertAt(ks, i + 1, ks[i] + fp)
    requires fks' == Drop(InsertAt(fks, r + 1, ks[i] + fp), r)
    requires ff' == if ff == At(ks[i]) then NextIn(InsertAt(fks, r + 1, ks[i] + fp), r) else ff
    requires bytes' == bytes + fp
    ensures Arranged(fin, ks', fks', ff', bytes', lo, hi)
    ensures ViewOf(fin, ks') == Carve(ViewOf(s0, ks), i, fp)
  {
    var v := ViewOf(s0, ks);
    TakeSplitView(s0, ks, lo, hi, i, fp);
    CarveLayout(v, lo, hi, i, fp);
    assert v[i].start == ks[i];
    TakeSplitList(v, i, r, fp, fks', ff');
    SizedAfter(s0, ks, i, fp, fin);
  }

  /** The free list and first free header that a split allocation leaves. */
  lemma TakeSplitList(v: seq<Block>, i: nat, r: nat, fp: nat, fks': seq<nat>, ff': Ptr)
    requires Distinct(FreeStarts(v))
    requires i < |v| && v[i].free && fp <= v[i].size && Splits(v, i, fp)
    requires r < |FreeStarts(v)| && FreeStarts(v)[r] == v[i].start
    requires fks' == Drop(InsertAt(FreeStarts(v), r + 1, v[i].start + fp), r)
    requires ff' == if Head(FreeStarts(v)) == At(v[i].start) then NextIn(InsertAt(FreeStarts(v), r + 1, v[i].start + fp), r)
                    else Head(FreeStarts(v))
    ensures fks' == FreeStarts(Carve(v, i, fp)) && ff' == Head(fks')
  {
    RankOf(v, i, r);
    SplitFreeList(v, i, r, fp, fks');
    HeadAfterDrop(FreeStarts(v), r, r + 1, v[i].start + fp);
  }

  /** The free list a split allocation leaves, named as the caller names it. */
  lemma SplitFreeList(v: seq<Block>, i: nat, r: nat, fp: nat, fks': seq<nat>)
    requires i < |v| && v[i].free && fp <= v[i].size && Splits(v, i, fp) && r == Rank(v, i)
    requires r < |FreeStarts(v)| && fks' == Drop(InsertAt(FreeStarts(v), r + 1, v[i].start + fp), r)
    ensures fks' == FreeStarts(Carve(v, i, fp))
  {
    CarveSplitList(v, i, fp, r, v[i].start + fp);
  }

  /** Allocation of free block `i` whole keeps the layout. */
  lemma TakeWholeArranged(s0: SizeMap, ks: seq<nat>, fks: seq<nat>, ff: Ptr, bytes: nat, lo: nat, hi: nat,
                          i: nat, r: nat, fp: nat, fin: SizeMap, fks': seq<nat>, ff': Ptr, bytes': nat)
    requires Arranged(s0, ks, fks, ff, bytes, lo, hi) && Distinct(fks)
    requires i < |ks| && ViewOf(s0, ks)[i].free && fp <= ViewOf(s0, ks)[i].size && !Splits(ViewOf(s0, ks), i, fp)
    requires fp % A == 0 && N <= fp && r < |fks| && fks[r] == ks[i]
    requires fin == s0[ks[i] := Taken(Word(s0, ks[i]))]
    requires fks' == Drop(fks, r)
    requires ff' == if ff == At(ks[i]) then NextIn(fks, r) else ff
    requires bytes' == bytes + ViewOf(s0, ks)[i].size
    ensures Arranged(fin, ks, fks', ff', bytes', lo, hi)
    ensures ViewOf(fin, ks) == Carve(ViewOf(s0, ks), i, fp)
  {
    var v := ViewOf(s0, ks);
    TakeWholeView(s0, ks, lo, hi, i, fp);
    CarveLayout(v, lo, hi, i, fp);
    RankStart(v, i);
    assert r == Rank(v, i);
    CarveFreeList(v, i, fp);
    DropHead(fks, r);
    assert ff == At(ks[i]) <==> r == 0;
  }

  /** Carving keeps the tiling, the even sizes, the alignment and the coalescing, and adds the
      carved size to the allocated bytes. */
  lemma CarveLayout(v: seq<Block>, lo: nat, hi: nat, i: nat, fp: nat)
    requires Tiles(v, lo, hi) && EvenSizes(v) && Aligned(v) && Coalesced(v)
    requires i < |v| && v[i].free && fp <= v[i].size && fp % A == 0 && N <= fp
    ensures Tiles(Carve(v, i, fp), lo, hi) && EvenSizes(Carve(v, i, fp))
    ensures Aligned(Carve(v, i, fp)) && Coalesced(Carve(v, i, fp))
    ensures AllocatedBytes(Carve(v, i, fp)) == AllocatedBytes(v) + CarvedSize(v, i, fp)
  {
    AlignedEven(fp);
    CarveTiles(v, lo, hi, i, fp);
    CarveEven(v, i, fp);
    CarveAligned(v, i, fp);
    CarveCoalesced(v, i, fp);
    CarveAllocated(v, i, fp);
  }

  /** The remainder header that a split adds holds a word. */
  lemma SizedAfter(s0: SizeMap, ks: seq<nat>, i: nat, fp: nat, fin: SizeMap)
    requires Sized(s0, ks) && i < |ks| && fp <= Word(s0, ks[i])
    requires fin == s0[ks[i] + fp := Word(s0, ks[i]) - fp][ks[i] := fp][ks[i] := Taken(fp)]
    ensures Sized(fin, InsertAt(ks, i + 1, ks[i] + fp))
  {
    InsertAtIndex(ks, i + 1, ks[i] + fp);
  }

  /** The free-list walk of `allocate` stops at the `j`-th free block when it is the first on the list
      to hold `fp` bytes; that block is then the first fit of the view, and it has rank `j`. */
  lemma SearchFound(size: SizeMap, ks: seq<nat>, fp: nat, j: nat) returns (i: nat)
    requires j < |FreeStarts(ViewOf(size, ks))|
    requires forall k :: 0 <= k < j ==> Size(Word(size, FreeStarts(ViewOf(size, ks))[k])) < fp
    requires Size(Word(size, FreeStarts(ViewOf(size, ks))[j])) >= fp
    ensures i < |ks| && ks[i] == FreeStarts(ViewOf(size, ks))[j] && ViewOf(size, ks)[i].free
    ensures FirstFit(ViewOf(size, ks), fp) == i
  {
    var v := ViewOf(size, ks);
    FreeStartsIndex(v, j);
    i :| 0 <= i < |v| && v[i].free && v[i].start == FreeStarts(v)[j] && |FreeStarts(v[..i])| == j;
    forall k | 0 <= k < i && v[k].free
      ensures v[k].size < fp
    {
      FreeRankGrows(v, k, i);
      RankStart(v, k);
    }
    FirstFitAt(v, fp, i);
  }

  /** The walk that finds no free block of `fp` bytes leaves no first fit. */
  lemma SearchExhausted(size: SizeMap, ks: seq<nat>, fp: nat)
    requires forall k :: 0 <= k < |FreeStarts(ViewOf(size, ks))| ==> Size(Word(size, FreeStarts(ViewOf(size, ks))[k])) < fp
    ensures FirstFit(ViewOf(size, ks), fp) == |ks|
  {
    var v := ViewOf(size, ks);
    forall k | 0 <= k < |v| && v[k].free
      ensures v[k].size < fp
    {
      RankStart(v, k);
    }
    FirstFitNone(v, fp);
  }

  /** When allocated block `i` is linked into the free list at its rank and flagged free, the first
      test of `merge` holds exactly when its address successor is free, and that successor is then
      its successor on the free list. */
  lemma ReleaseNextFlag(size: SizeMap, ks: seq<nat>, lo: nat, hi: nat, i: nat)
    requires Tiles(ViewOf(size, ks), lo, hi) && i < |ks| && !ViewOf(size, ks)[i].free
    ensures Rank(ViewOf(size, ks), i) <= |FreeStarts(ViewOf(size, ks))|
    ensures var v, r, h := ViewOf(size, ks), Rank(ViewOf(size, ks), i), ks[i];
            var s0, fb0 := size[h := Freed(Word(size, h))], InsertAt(FreeStarts(v), r, h);
            && (MergesNext(s0, fb0, r) <==> JoinsNext(v, i))
            && (JoinsNext(v, i) ==> i + 1 < |ks| && ks[i + 1] == fb0[r + 1])
  {
    var v, r, h := ViewOf(size, ks), Rank(ViewOf(size, ks), i), ks[i];
    RankBound(v, i);
    var s0, fb0 := size[h := Freed(Word(size, h))], InsertAt(FreeStarts(v), r, h);
    RankStep(v, i);
    NextFreeAbuts(v, lo, hi, i);
    InsertAtIndex(FreeStarts(v), r, h);
    PackedWord(Word(size, h));
    assert v[i].start == h && Word(s0, h) == v[i].size;
    assert i + 1 < |ks| ==> v[i + 1].start == ks[i + 1];
  }

  /** The second test of `merge` on block `i`, linked in at its rank, holds exactly when its address
      predecessor is free, and that predecessor is then its predecessor on the free list. */
  lemma ReleasePrevFlag(size: SizeMap, ks: seq<nat>, lo: nat, hi: nat, i: nat)
    requires Tiles(ViewOf(size, ks), lo, hi) && i < |ks| && !ViewOf(size, ks)[i].free
    ensures Rank(ViewOf(size, ks), i) <= |FreeStarts(ViewOf(size, ks))|
    ensures var v, r, h := ViewOf(size, ks), Rank(ViewOf(size, ks), i), ks[i];
            var s0, fb0 := size[h := Freed(Word(size, h))], InsertAt(FreeStarts(v), r, h);
            && (MergesPrev(s0, fb0, r) <==> JoinsPrev(v, i))
            && (JoinsPrev(v, i) ==> i > 0 && ks[i - 1] == fb0[r - 1])
  {
    var v, r, h := ViewOf(size, ks), Rank(ViewOf(size, ks), i), ks[i];
    RankBound(v, i);
    var s0, fb0 := size[h := Freed(Word(size, h))], InsertAt(FreeStarts(v), r, h);
    InsertAtIndex(FreeStarts(v), r, h);
    if r == 0 {
      if JoinsPrev(v, i) {
        FreeRankGrows(v, i - 1, i);
      }
    } else {
      var k := PrevFreeOf(v, i, r - 1);
      PrevFreeAbuts(v, lo, hi, k, i);
      Disjoint(v, lo, hi, k, i);
      PackedWord(Word(size, ks[k]));
      assert v[k].start == ks[k] && v[i].start == h && ks[k] != h;
      assert Word(s0, fb0[r - 1]) == v[k].size;
    }
  }

  /** The `j`-th free start, with `j + 1` the rank of block `i`, is the nearest free block before
      block `i`. */
  lemma PrevFreeOf(v: seq<Block>, i: nat, j: nat) returns (k: nat)
    requires i < |v| && Rank(v, i) == j + 1
    ensures j < |FreeStarts(v)|
    ensures k < i && v[k].free && FreeStarts(v)[j] == v[k].start
    ensures forall m :: k < m < i ==> !v[m].free
  {
    RankBound(v, i);
    FreeStartsIndex(v, j);
    k :| 0 <= k < |v| && v[k].free && v[k].start == FreeStarts(v)[j] && |FreeStarts(v[..k])| == j;
    if k >= i {
      RankMono(v, i, k);
    }
    forall m | k < m < i
      ensures !v[m].free
    {
      if v[m].free {
        FreeRankGrows(v, k, m);
        FreeRankGrows(v, m, i);
      }
    }
  }

  /** Release of allocated block `i`, as `deallocate` and `merge` carry it out, keeps the layout: the
      words, lists, first free header and count it leaves are `Arranged` and read as `Release`. */
  lemma ReleaseArranged(size: SizeMap, ks: seq<nat>, fks: seq<nat>, ff: Ptr, bytes: nat, lo: nat, hi: nat, i: nat,
                        fin: SizeMap, ks': seq<nat>, fks': seq<nat>, ff': Ptr, bytes': nat)
    requires Arranged(size, ks, fks, ff, bytes, lo, hi) && i < |ks| && !ViewOf(size, ks)[i].free
    requires fin == ReleasedSizes(size, ks, i)
    requires ks' == Joined(ks, i, JoinsNext(ViewOf(size, ks), i), JoinsPrev(ViewOf(size, ks), i))
    requires Rank(ViewOf(size, ks), i) <= |fks|
    requires JoinsNext(ViewOf(size, ks), i) ==> Rank(ViewOf(size, ks), i) < |fks|
    requires JoinsPrev(ViewOf(size, ks), i) ==> Rank(ViewOf(size, ks), i) > 0
    requires fks' == Joined(InsertAt(fks, Rank(ViewOf(size, ks), i), ks[i]), Rank(ViewOf(size, ks), i),
                            JoinsNext(ViewOf(size, ks), i), JoinsPrev(ViewOf(size, ks), i))
    requires ff' == if Rank(ViewOf(size, ks), i) == 0 then At(ks[i]) else ff
    requires bytes' + ViewOf(size, ks)[i].size == bytes
    ensures Arranged(fin, ks', fks', ff', bytes', lo, hi)
    ensures ViewOf(fin, ks') == Release(ViewOf(size, ks), i)
  {
    var v := ViewOf(size, ks);
    ViewDistinct(size, ks, lo, hi);
    ReleaseView(size, ks, i);
    ReleaseLayout(v, lo, hi, i);
    ReleaseFreeList(v, lo, hi, i);
    ReleaseHead(fks, Rank(v, i), ks[i], JoinsNext(v, i), JoinsPrev(v, i));
    ReleaseSized(size, ks, i, JoinsNext(v, i), JoinsPrev(v, i));
  }

  /** Release keeps the tiling, the even sizes, the alignment and the coalescing, and takes the
      released size off the allocated bytes. */
  lemma ReleaseLayout(v: seq<Block>, lo: nat, hi: nat, i: nat)
    requires Tiles(v, lo, hi) && EvenSizes(v) && Aligned(v) && Coalesced(v) && i < |v| && !v[i].free
    ensures Tiles(Release(v, i), lo, hi) && EvenSizes(Release(v, i))
    ensures Aligned(Release(v, i)) && Coalesced(Release(v, i))
    ensures AllocatedBytes(v) >= v[i].size && AllocatedBytes(Release(v, i)) == AllocatedBytes(v) - v[i].size
  {
    ReleaseTiles(v, lo, hi, i);
    ReleaseEven(v, i);
    ReleaseAligned(v, i);
    ReleaseCoalesced(v, i);
    ReleaseAllocated(v, i);
  }

  /** The head of the free list after release: the released header when it goes in first, the old
      head otherwise. */
  lemma ReleaseHead(fks: seq<nat>, r: nat, h: nat, next: bool, prev: bool)
    requires r <= |fks| && (next ==> r < |fks|) && (prev ==> r > 0)
    ensures Head(Joined(InsertAt(fks, r, h), r, next, prev)) == if r == 0 then At(h) else Head(fks)
  {
    InsertAtIndex(fks, r, h);
    JoinedHead(InsertAt(fks, r, h), r, next, prev);
  }

  /** Every header left on the full list after release holds a word. */
  lemma ReleaseSized(size: SizeMap, ks: seq<nat>, i: nat, next: bool, prev: bool)
    requires Sized(size, ks) && i < |ks| && (next ==> i + 1 < |ks|) && (prev ==> i > 0)
    ensures Sized(JoinedSizes(size[ks[i] := Freed(Word(size, ks[i]))], ks, i, next, prev), Joined(ks, i, next, prev))
  {
    JoinedWithin(ks, i, next, prev);
    JoinedKeys(size[ks[i] := Freed(Word(size, ks[i]))], ks, i, next, prev);
  }

  /** With no free block in the view, release of block `i` merges with nothing and puts it first. */
  lemma ReleaseAlone(v: seq<Block>, i: nat)
    requires FreeStarts(v) == [] && i < |v|
    ensures !JoinsNext(v, i) && !JoinsPrev(v, i) && Rank(v, i) == 0
  {
    RankBound(v, i);
    if JoinsNext(v, i) {
      RankStart(v, i + 1);
    }
    if JoinsPrev(v, i) {
      RankStart(v, i - 1);
    }
  }

  /** The state `deallocate` leaves as written when the free list was empty is not a layout: the
      free list holds the released header, whose word is still flagged allocated, so the free list is
      not the list of free blocks. */
  lemma FlaggedFreeHead(size: SizeMap, ks: seq<nat>, lo: nat, hi: nat, i: nat, bytes: nat)
    requires Tiles(ViewOf(size, ks), lo, hi) && i < |ks| && !ViewOf(size, ks)[i].free
    ensures !Arranged(size, ks, [ks[i]], At(ks[i]), bytes, lo, hi)
  {
    var v := ViewOf(size, ks);
    NotListed(v, lo, hi, i);
    assert v[i].start == ks[i];
  }

  class List {
    var next: LinkMap
    var prev: LinkMap
    var size: SizeMap
    var nextFree: LinkMap
    var prevFree: LinkMap
    /** `m_first_free`. */
    var firstFree: Ptr
    /** `m_allocated`. */
    var bytesAllocated: nat
    /** `m_first`: the header at the start of the arena. */
    const first: nat
    /** One past the end of the arena. */
    ghost const hi: nat
    /** The headers in the order of the full list, and in the order of the free list. */
    ghost var blocks: seq<nat>
    ghost var freeBlocks: seq<nat>

    ghost function View(): seq<Block>
      reads this
    {
      ViewOf(size, blocks)
    }

    /** Both lists are null-terminated doubly linked lists of distinct headers. */
    ghost predicate ListsLinked()
      reads this
    {
      && Linked(next, prev, blocks) && Distinct(blocks)
      && Linked(nextFree, prevFree, freeBlocks) && Distinct(freeBlocks)
    }

    /** The invariant of a quiescent engine: both lists are well linked and the words and lists are
        `Arranged` over the arena. */
    ghost predicate Valid()
      reads this
    {
      ListsLinked() && Arranged(size, blocks, freeBlocks, firstFree, bytesAllocated, first, hi)
    }

    /** `list(memory)`: a single free node covering the whole arena. The arena must start at an
        aligned address and hold at least one node; its size must be even, or the node would be flagged
        allocated. */
    constructor (start: nat, capacity: nat)
      requires start % A == 0 && capacity >= N && capacity % 2 == 0
      ensures Valid()
      ensures first == start && hi == start + capacity
      ensures View() == [Block(start, capacity, true)]
      ensures firstFree == At(start) && bytesAllocated == 0
    {
      first := start;
      hi := start + capacity;
      next, prev := map[start := Null], map[start := Null];
      nextFree, prevFree := map[start := Null], map[start := Null];
      size := map[start := capacity];
      firstFree := At(start);
      bytesAllocated := 0;
      blocks, freeBlocks := [start], [start];
      new;
      PackedWord(capacity);
      assert View() == [Block(start, capacity, true)];
      assert FreeStarts(View()) == [start] by { SingleFilters(Block(start, capacity, true)); }
      SingleFilters(Block(start, capacity, true));
    }

    // -------------------------------------------------------------------------------------------
    // Node operations. Each names the node it runs on by its header address; the ghost indices say
    // where that node sits in the lists.

    /** `set_free()`: clears the allocated flag of the node at `n`. */
    method SetFree(n: nat)
      modifies this`size
      ensures size == old(size)[n := Freed(Word(old(size), n))]
      ensures IsFree(Word(size, n)) && Size(Word(size, n)) == Size(Word(old(size), n))
      ensures nextFree == old(nextFree) && prevFree == old(prevFree) && freeBlocks == old(freeBlocks)
      ensures next == old(next) && prev == old(prev) && blocks == old(blocks)
    {
      size := size[n := Freed(Word(size, n))];
      PackedWord(Word(old(size), n));
    }

    /** `set_allocated()`: sets the allocated flag of the node at `n`. */
    method SetAllocated(n: nat)
      modifies this`size
      ensures size == old(size)[n := Taken(Word(old(size), n))]
      ensures !IsFree(Word(size, n)) && Size(Word(size, n)) == Size(Word(old(size), n))
      ensures nextFree == old(nextFree) && prevFree == old(prevFree) && freeBlocks == old(freeBlocks)
      ensures next == old(next) && prev == old(prev) && blocks == old(blocks)
    {
      size := size[n := Taken(Word(size, n))];
      PackedWord(Word(old(size), n));
    }

    /** `append_to_list(p)` on the node at `n`, the `j`-th of the full list: `p` is linked in right
        after it. */
    method AppendToList(n: nat, p: nat, ghost j: nat)
      requires Linked(next, prev, blocks) && Distinct(blocks) && j < |blocks| && blocks[j] == n && p !in blocks
      modifies this`next, this`prev, this`blocks
      ensures next == Spliced(old(next), n, p) && prev == SplicedBack(old(next), old(prev), n, p)
      ensures blocks == InsertAt(old(blocks), j + 1, p)
      ensures Linked(next, prev, blocks) && Distinct(blocks)
      ensures nextFree == old(nextFree) && prevFree == old(prevFree) && freeBlocks == old(freeBlocks) && size == old(size)
    {
      if Get(next, n).At? {
        prev := prev[Get(next, n).addr := At(p)];
      }
      next := next[p := Get(next, n)];
      prev := prev[p := At(n)];
      next := next[n := At(p)];
      blocks := InsertAt(blocks, j + 1, p);
      SpliceAfter(old(next), old(prev), old(blocks), j, p);
    }

    /** `prepend_to_list(p)` on the node at `n`, the `j`-th of the full list: `p` is linked in right
        before it. */
    method PrependToList(n: nat, p: nat, ghost j: nat)
      requires Linked(next, prev, blocks) && Distinct(blocks) && j < |blocks| && blocks[j] == n && p !in blocks
      modifies this`next, this`prev, this`blocks
      ensures next == SplicedBack(old(prev), old(next), n, p) && prev == Spliced(old(prev), n, p)
      ensures blocks == InsertAt(old(blocks), j, p)
      ensures Linked(next, prev, blocks) && Distinct(blocks)
    {
      if Get(prev, n).At? {
        next := next[Get(prev, n).addr := At(p)];
      }
      prev := prev[p := Get(prev, n)];
      next := next[p := At(n)];
      prev := prev[n := At(p)];
      blocks := InsertAt(blocks, j, p);
      SpliceBefore(old(next), old(prev), old(blocks), j, p);
    }

    /** `unlink_from_list()` on the node at `n`, the `j`-th of the full list: its neighbours are
        linked to each other. The node keeps its own links. */
    method UnlinkFromList(n: nat, ghost j: nat) returns (r: nat)
      requires Linked(next, prev, blocks) && Distinct(blocks) && j < |blocks| && blocks[j] == n
      modifies this`next, this`prev, this`blocks
      ensures r == n
      ensures next == Bypassed(old(next), old(prev), n) && prev == Bypassed(old(prev), next, n)
      ensures blocks == Drop(old(blocks), j)
      ensures Linked(next, prev, blocks) && Distinct(blocks)
    {
      if Get(prev, n).At? {
        next := next[Get(prev, n).addr := Get(next, n)];
      }
      if Get(next, n).At? {
        prev := prev[Get(next, n).addr := Get(prev, n)];
      }
      blocks := Drop(blocks, j);
      Bypass(old(next), old(prev), old(blocks), j);
      r := n;
    }

    /** `unlink_from_freelist()` on the node at `n`, the `j`-th of the free list: its free
        neighbours are linked to each other and the node is flagged allocated. */
    method UnlinkFromFreelist(n: nat, ghost j: nat) returns (r: nat)
      requires Linked(nextFree, prevFree, freeBlocks) && Distinct(freeBlocks) && j < |freeBlocks| && freeBlocks[j] == n
      modifies this`nextFree, this`prevFree, this`freeBlocks, this`size
      ensures r == n
      ensures nextFree == Bypassed(old(nextFree), old(prevFree), n) && prevFree == Bypassed(old(prevFree), nextFree, n)
      ensures freeBlocks == Drop(old(freeBlocks), j)
      ensures size == old(size)[n := Taken(Word(old(size), n))]
      ensures Linked(nextFree, prevFree, freeBlocks) && Distinct(freeBlocks)
    {
      if Get(prevFree, n).At? {
        nextFree := nextFree[Get(prevFree, n).addr := Get(nextFree, n)];
      }
      if Get(nextFree, n).At? {
        prevFree := prevFree[Get(nextFree, n).addr := Get(prevFree, n)];
      }
      freeBlocks := Drop(freeBlocks, j);
      SetAllocated(n);
      Bypass(old(nextFree), old(prevFree), old(freeBlocks), j);
      r := n;
    }

    /** `merge_next()` on the node at `n`, the `i`-th of the full list and the `r`-th of the free
        list, whose successor on the free list is also its successor in address order: `n` takes the
        successor's size word into its own and the successor leaves both lists, flagged allocated. */
    method MergeNext(n: nat, ghost i: nat, ghost r: nat)
      requires ListsLinked()
      requires i + 1 < |blocks| && blocks[i] == n && r + 1 < |freeBlocks| && freeBlocks[r] == n
      requires blocks[i + 1] == freeBlocks[r + 1]
      modifies this`next, this`prev, this`blocks, this`nextFree, this`prevFree, this`freeBlocks, this`size
      ensures size == Absorb(old(size), n, old(blocks)[i + 1])
      ensures blocks == Drop(old(blocks), i + 1) && freeBlocks == Drop(old(freeBlocks), r + 1)
      ensures ListsLinked()
    {
      LinksOf(nextFree, prevFree, freeBlocks, r);
      LinksOf(next, prev, blocks, i);
      var q := nextFree[n].addr;
      size := size[n := Word(size, n) + Word(size, q)];
      var _ := UnlinkFromFreelist(q, r + 1);
      var _ := UnlinkFromList(next[n].addr, i + 1);
    }

    /** `merge()` on the node at `n`, the `i`-th of the full list and the `r`-th of the free list:
        it absorbs its free-list successor when that successor starts where `n` ends, and is then
        absorbed by its free-list predecessor when `n` starts where that one ends. Both tests read
        the stored size word. */
    method Merge(n: nat, ghost i: nat, ghost r: nat)
      requires ListsLinked()
      requires i < |blocks| && blocks[i] == n && r < |freeBlocks| && freeBlocks[r] == n
      requires MergesNext(size, freeBlocks, r) ==> i + 1 < |blocks| && blocks[i + 1] == freeBlocks[r + 1]
      requires MergesPrev(size, freeBlocks, r) ==> i > 0 && blocks[i - 1] == freeBlocks[r - 1]
      modifies this`next, this`prev, this`blocks, this`nextFree, this`prevFree, this`freeBlocks, this`size
      ensures var c1, c2 := MergesNext(old(size), old(freeBlocks), r), MergesPrev(old(size), old(freeBlocks), r);
              && size == JoinedSizes(old(size), old(blocks), i, c1, c2)
              && blocks == Joined(old(blocks), i, c1, c2)
              && freeBlocks == Joined(old(freeBlocks), r, c1, c2)
      ensures ListsLinked()
    {
      ghost var c1, c2 := MergesNext(size, freeBlocks, r), MergesPrev(size, freeBlocks, r);
      ghost var fb := freeBlocks;
      LinksOf(nextFree, prevFree, freeBlocks, r);
      if Get(nextFree, n).At? && n + Word(size, n) == Get(nextFree, n).addr {
        MergeNext(n, i, r);
        DropIndex(old(blocks), i + 1);
        DropIndex(fb, r + 1);
        assert r > 0 ==> fb[r - 1] != n && fb[r - 1] != fb[r + 1];
      }
      assert c2 == (r > 0 && fb[r - 1] + Word(size, fb[r - 1]) == n);
      LinksOf(nextFree, prevFree, freeBlocks, r);
      if Get(prevFree, n).At? && Get(prevFree, n).addr + Word(size, Get(prevFree, n).addr) == n {
        MergeNext(Get(prevFree, n).addr, i - 1, r - 1);
      }
    }

    /** `append_to_freelist(p)` on the node at `n`, the `r`-th of the free list: `p`, the `ip`-th of
        the full list, is linked into the free list right after `n`, flagged free and merged. The
        merge tests are those `merge` makes once `p` is linked in. */
    method AppendToFreelist(n: nat, p: nat, ghost r: nat, ghost ip: nat)
      requires ListsLinked()
      requires r < |freeBlocks| && freeBlocks[r] == n && p !in freeBlocks && ip < |blocks| && blocks[ip] == p
      requires var s0, fb0 := size[p := Freed(Word(size, p))], InsertAt(freeBlocks, r + 1, p);
               && (MergesNext(s0, fb0, r + 1) ==> ip + 1 < |blocks| && blocks[ip + 1] == fb0[r + 2])
               && (MergesPrev(s0, fb0, r + 1) ==> ip > 0 && blocks[ip - 1] == n)
      modifies this`next, this`prev, this`blocks, this`nextFree, this`prevFree, this`freeBlocks, this`size
      ensures var s0, fb0 := old(size)[p := Freed(Word(old(size), p))], InsertAt(old(freeBlocks), r + 1, p);
              var c1, c2 := MergesNext(s0, fb0, r + 1), MergesPrev(s0, fb0, r + 1);
              && size == JoinedSizes(s0, old(blocks), ip, c1, c2)
              && blocks == Joined(old(blocks), ip, c1, c2)
              && freeBlocks == Joined(fb0, r + 1, c1, c2)
      ensures ListsLinked()
    {
      InsertFreeAfter(n, p, r);
      Merge(p, ip, r + 1);
    }

    /** `prepend_to_freelist(p)` on the node at `n`, the `r`-th of the free list: `p`, the `ip`-th of
        the full list, is linked into the free list right before `n`, flagged free and merged. */
    method PrependToFreelist(n: nat, p: nat, ghost r: nat, ghost ip: nat)
      requires ListsLinked()
      requires r < |freeBlocks| && freeBlocks[r] == n && p !in freeBlocks && ip < |blocks| && blocks[ip] == p
      requires var s0, fb0 := size[p := Freed(Word(size, p))], InsertAt(freeBlocks, r, p);
               && (MergesNext(s0, fb0, r) ==> ip + 1 < |blocks| && blocks[ip + 1] == n)
               && (MergesPrev(s0, fb0, r) ==> ip > 0 && blocks[ip - 1] == fb0[r - 1])
      modifies this`next, this`prev, this`blocks, this`nextFree, this`prevFree, this`freeBlocks, this`size
      ensures var s0, fb0 := old(size)[p := Freed(Word(old(size), p))], InsertAt(old(freeBlocks), r, p);
              var c1, c2 := MergesNext(s0, fb0, r), MergesPrev(s0, fb0, r);
              && size == JoinedSizes(s0, old(blocks), ip, c1, c2)
              && blocks == Joined(old(blocks), ip, c1, c2)
              && freeBlocks == Joined(fb0, r, c1, c2)
      ensures ListsLinked()
    {
      InsertFreeBefore(n, p, r);
      Merge(p, ip, r);
    }

    /** `node(word)` placed at `t`: a header holding `word` with null links on both lists. */
    method NewNode(t: nat, word: nat)
      requires ListsLinked() && t !in blocks && t !in freeBlocks
      modifies this`next, this`prev, this`nextFree, this`prevFree, this`size
      ensures next == old(next)[t := Null] && prev == old(prev)[t := Null]
      ensures nextFree == old(nextFree)[t := Null] && prevFree == old(prevFree)[t := Null]
      ensures size == old(size)[t := word]
      ensures ListsLinked() && blocks == old(blocks) && freeBlocks == old(freeBlocks)
    {
      WriteOutside(next, prev, blocks, t, Null, Null);
      WriteOutside(nextFree, prevFree, freeBlocks, t, Null, Null);
      next, prev := next[t := Null], prev[t := Null];
      nextFree, prevFree := nextFree[t := Null], prevFree[t := Null];
      size := size[t := word];
    }

    /** `split(fp)` on the free node at `n`, the `i`-th of the full list: a node holding the rest of
        the word is created `fp` bytes in, linked after `n` on both lists, and `n` is shrunk to `fp`.
        The merge that `append_to_freelist` makes finds nothing to merge, as the remainder ends where
        `n` ended, before an allocated block or the end of the arena. */
    method Split(n: nat, fp: nat, ghost i: nat, ghost r: nat) returns (tail: nat)
      requires Valid()
      requires i < |blocks| && blocks[i] == n && View()[i].free && r < |freeBlocks| && freeBlocks[r] == n
      requires fp % A == 0 && 0 < fp && fp + N <= View()[i].size
      modifies this`next, this`prev, this`blocks, this`nextFree, this`prevFree, this`freeBlocks, this`size
      ensures tail == n + fp
      ensures blocks == InsertAt(old(blocks), i + 1, tail)
      ensures freeBlocks == InsertAt(old(freeBlocks), r + 1, tail)
      ensures size == old(size)[tail := Word(old(size), n) - fp][n := fp]
      ensures ListsLinked()
    {
      ghost var v := View();
      RankStart(v, i);
      assert r == Rank(v, i);
      tail := n + fp;
      SplitFresh(size, blocks, first, hi, i, fp);
      SplitNoMerge(v, first, hi, i);
      var w := Word(size, n);
      PackedWord(w);
      FreedRest(w, fp);
      assert End(v[i]) == n + w;
      LinkRemainder(n, tail, w - fp, i, r);
      size := size[n := fp];
    }

    /** The body of `split` up to the shrinking of `n`: the node holding `word` is created at `t`
        and appended after `n` on both lists. The requires say that the merge `append_to_freelist`
        makes then finds nothing: `n` does not end at `t`, and `t` does not end where the next free
        block starts. */
    method LinkRemainder(n: nat, t: nat, word: nat, ghost i: nat, ghost r: nat)
      requires ListsLinked() && i < |blocks| && blocks[i] == n && r < |freeBlocks| && freeBlocks[r] == n
      requires t !in blocks && t !in freeBlocks && IsFree(word) && Freed(word) == word
      requires n + Word(size, n) != t
      requires r + 1 < |freeBlocks| ==> t + word != freeBlocks[r + 1]
      modifies this`next, this`prev, this`blocks, this`nextFree, this`prevFree, this`freeBlocks, this`size
      ensures blocks == InsertAt(old(blocks), i + 1, t)
      ensures freeBlocks == InsertAt(old(freeBlocks), r + 1, t)
      ensures size == old(size)[t := word]
      ensures ListsLinked()
    {
      NewNode(t, word);
      ghost var s0 := size;
      AppendToList(n, t, i);
      ghost var fb0, b0 := InsertAt(freeBlocks, r + 1, t), blocks;
      ghost var s1 := size[t := Freed(Word(size, t))];
      assert Word(s0, t) == word;
      SameWord(s0, t);
      assert s1 == s0;
      InsertAtIndex(freeBlocks, r + 1, t);
      assert Word(s0, n) == Word(old(size), n);
      assert fb0[r] == n && fb0[r + 1] == t && (r + 2 < |fb0| ==> fb0[r + 2] == old(freeBlocks)[r + 1]);
      ghost var c1, c2 := MergesNext(s1, fb0, r + 1), MergesPrev(s1, fb0, r + 1);
      assert !c1;
      assert !c2;
      assert i + 1 < |b0| && r + 1 < |fb0|;
      assert JoinedSizes(s1, b0, i + 1, c1, c2) == s0;
      assert Joined(b0, i + 1, c1, c2) == b0 && Joined(fb0, r + 1, c1, c2) == fb0;
      AppendToFreelist(n, t, r, i + 1);
      assert size == s0 && blocks == b0 && freeBlocks == fb0;
    }

    /** `allocate(request)`: the first block on the free list that holds the request's footprint is
        carved and its header returned; null when no free block is large enough, with nothing
        changed. */
    method Allocate(request: nat) returns (h: Ptr)
      requires Valid()
      modifies this`next, this`prev, this`blocks, this`nextFree, this`prevFree, this`freeBlocks, this`size
      modifies this`firstFree, this`bytesAllocated
      ensures Valid()
      ensures h == Null <==> FirstFit(old(View()), Footprint(request)) == |old(View())|
      ensures h != Null ==> var i := FirstFit(old(View()), Footprint(request));
                            i < |old(View())| && h == At(old(View())[i].start)
                            && View() == Carve(old(View()), i, Footprint(request))
      ensures h == Null ==> unchanged(this)
    {
      var fp := Footprint(request);
      var p := firstFree;
      ghost var j := 0;
      while p != Null && Size(Word(size, p.addr)) < fp
        invariant j <= |freeBlocks| && p == if j < |freeBlocks| then At(freeBlocks[j]) else Null
        invariant forall k :: 0 <= k < j ==> Size(Word(size, freeBlocks[k])) < fp
        invariant unchanged(this)
        decreases |freeBlocks| - j
      {
        LinksOf(nextFree, prevFree, freeBlocks, j);
        p := Get(nextFree, p.addr);
        j := j + 1;
      }
      if p == Null {
        SearchExhausted(size, blocks, fp);
        return Null;
      }
      ghost var i := SearchFound(size, blocks, fp, j);
      Take(p.addr, fp, i, j);
      h := p;
    }

    /** `allocation_size(header)`: the payload capacity of the block headed at `h`, the `i`-th block,
        which is its size less the header. */
    function AllocationSize(h: nat, ghost i: nat): (capacity: nat)
      reads this
      requires Valid() && i < |blocks| && blocks[i] == h
      ensures capacity + H == View()[i].size
      ensures capacity >= N - H
    {
      assert View()[i].size >= N;
      DataSize(Word(size, h))
    }

    /** The walk of `deallocate` back along the full list from the header at `h`, the `i`-th block,
        to the nearest block whose word is not flagged allocated; null when there is none. */
    method FindPrevFree(h: nat, ghost i: nat) returns (p: Ptr, ghost k: nat)
      requires Linked(next, prev, blocks) && i < |blocks| && blocks[i] == h
      ensures p == Null ==> forall m :: 0 <= m < i ==> !View()[m].free
      ensures p != Null ==> k < i && p == At(blocks[k]) && View()[k].free
      ensures p != Null ==> forall m :: k < m < i ==> !View()[m].free
    {
      LinksOf(next, prev, blocks, i);
      p := Get(prev, h);
      ghost var m: nat := i;
      k := 0;
      while p != Null && !IsFree(Word(size, p.addr))
        invariant m <= i < |View()| && p == if m > 0 then At(blocks[m - 1]) else Null
        invariant forall t :: m <= t < i ==> !View()[t].free
        decreases m
      {
        LinksOf(next, prev, blocks, m - 1);
        p := Get(prev, p.addr);
        m := m - 1;
      }
      if p != Null {
        k := m - 1;
      }
    }

    /** The engine between the opening of `deallocate` and its linking of the header at `h`, the
        `i`-th block: the node at `h` is recreated and its size no longer counted, and all else is as
        in a quiescent engine. */
    ghost predicate Recreated(h: nat, i: nat)
      reads this
    {
      && ListsLinked() && i < |blocks| && blocks[i] == h && !View()[i].free
      && Arranged(size, blocks, freeBlocks, firstFree, bytesAllocated + View()[i].size, first, hi)
    }

    /** `deallocate(h)` as written, on the header at `h`, the `i`-th block, which is allocated: the
        node is recreated with null free links, its size is uncounted, and it is appended after the
        nearest free block before it, or else prepended to the free list and made its first node.
        When the free list was empty the node becomes the whole free list without `set_free`, so
        its word stays flagged allocated. */
    method DeallocateAsWritten(h: nat, ghost i: nat)
      requires Valid() && i < |blocks| && blocks[i] == h && !View()[i].free
      modifies this`next, this`prev, this`blocks, this`nextFree, this`prevFree, this`freeBlocks, this`size
      modifies this`firstFree, this`bytesAllocated
      ensures old(freeBlocks) != [] ==> Valid() && View() == Release(old(View()), i)
      ensures old(freeBlocks) == [] ==>
                && ListsLinked() && size == old(size) && blocks == old(blocks)
                && freeBlocks == [h] && firstFree == At(h)
                && bytesAllocated + old(View())[i].size == old(bytesAllocated)
    {
      ghost var v := View();
      Recreate(h, i);
      var p, k := FindPrevFree(h, i);
      if p != Null {
        RankStart(v, k);
        ReleaseAfter(p.addr, h, i, k);
        return;
      }
      LinkFirst(h, i);
    }

    /** The end of `deallocate` when no block before the header at `h`, the `i`-th block, is free:
        the node is prepended to the free list, or becomes the whole free list when that is empty,
        and is made the first free node. */
    method LinkFirst(h: nat, ghost i: nat)
      requires Recreated(h, i) && forall m :: 0 <= m < i ==> !View()[m].free
      modifies this`next, this`prev, this`blocks, this`nextFree, this`prevFree, this`freeBlocks, this`size
      modifies this`firstFree
      ensures old(freeBlocks) != [] ==> Valid() && View() == Release(old(View()), i)
      ensures old(freeBlocks) == [] ==>
                && ListsLinked() && size == old(size) && blocks == old(blocks)
                && freeBlocks == [h] && firstFree == At(h)
      ensures bytesAllocated == old(bytesAllocated)
    {
      if firstFree != Null {
        ReleaseFirst(firstFree.addr, h, i);
      } else {
        StartFreelist(h);
      }
      firstFree := At(h);
    }

    /** The branch of `deallocate` for an empty free list: the recreated node at `h` becomes its only
        node, with both free links null. */
    method StartFreelist(h: nat)
      requires ListsLinked() && freeBlocks == []
      modifies this`nextFree, this`prevFree, this`freeBlocks
      ensures ListsLinked() && freeBlocks == [h]
      ensures nextFree == old(nextFree)[h := Null] && prevFree == old(prevFree)[h := Null]
    {
      nextFree, prevFree := nextFree[h := Null], prevFree[h := Null];
      freeBlocks := [h];
      assert LinkedAt(nextFree, prevFree, freeBlocks, 0);
    }

    /** The opening of `deallocate`: the node at `h`, the `i`-th block, is recreated with null free
        links and its size is taken off the allocated count. */
    method Recreate(h: nat, ghost i: nat)
      requires Valid() && i < |blocks| && blocks[i] == h && !View()[i].free
      modifies this`nextFree, this`prevFree, this`bytesAllocated
      ensures Recreated(h, i)
      ensures nextFree == old(nextFree)[h := Null] && prevFree == old(prevFree)[h := Null]
      ensures bytesAllocated + old(View())[i].size == old(bytesAllocated)
      ensures size == old(size) && blocks == old(blocks) && freeBlocks == old(freeBlocks)
      ensures firstFree == old(firstFree) && next == old(next) && prev == old(prev)
    {
      ghost var v := View();
      NotListed(v, first, hi, i);
      ReleaseLayout(v, first, hi, i);
      assert v[i].size == Size(Word(size, h));
      WriteOutside(nextFree, prevFree, freeBlocks, h, Null, Null);
      nextFree, prevFree := nextFree[h := Null], prevFree[h := Null];
      bytesAllocated := bytesAllocated - Size(Word(size, h));
    }

    /** `deallocate(h)` with the missing `set_free` supplied: when the free list was empty the node
        is flagged free as it becomes the whole free list. */
    method Deallocate(h: nat, ghost i: nat)
      requires Valid() && i < |blocks| && blocks[i] == h && !View()[i].free
      modifies this`next, this`prev, this`blocks, this`nextFree, this`prevFree, this`freeBlocks, this`size
      modifies this`firstFree, this`bytesAllocated
      ensures Valid() && View() == Release(old(View()), i)
    {
      ghost var v, s0, fb0, ff0, by0 := View(), size, freeBlocks, firstFree, bytesAllocated;
      var empty := firstFree == Null;
      DeallocateAsWritten(h, i);
      if empty {
        SetFree(h);
        ReleaseAlone(v, i);
        ReleaseArranged(s0, blocks, fb0, ff0, by0, first, hi, i, size, blocks, freeBlocks, firstFree, bytesAllocated);
      }
    }

    /** `deallocate` on the header at `h`, the `i`-th block, whose nearest free block before it is the
        `k`-th block at `n`: `append_to_freelist` on `n` links it in and merges it. */
    method ReleaseAfter(n: nat, h: nat, ghost i: nat, ghost k: nat)
      requires Recreated(h, i)
      requires k < i && blocks[k] == n && View()[k].free && forall m :: k < m < i ==> !View()[m].free
      modifies this`next, this`prev, this`blocks, this`nextFree, this`prevFree, this`freeBlocks, this`size
      ensures Valid() && View() == Release(old(View()), i)
      ensures firstFree == old(firstFree) && bytesAllocated == old(bytesAllocated)
    {
      ghost var v, s0, b0, fb0 := View(), size, blocks, freeBlocks;
      ghost var r := Rank(v, k);
      RankStep(v, k);
      RankFlat(v, k + 1, i);
      RankStart(v, k);
      NotListed(v, first, hi, i);
      ReleaseNextFlag(size, blocks, first, hi, i);
      ReleasePrevFlag(size, blocks, first, hi, i);
      ReleaseFreeList(v, first, hi, i);
      AppendToFreelist(n, h, r, i);
      ReleaseArranged(s0, b0, fb0, firstFree, bytesAllocated + v[i].size, first, hi, i,
                      size, blocks, freeBlocks, firstFree, bytesAllocated);
    }

    /** `deallocate` on the header at `h`, the `i`-th block, with no free block before it and a
        nonempty free list headed by `n`: `prepend_to_freelist` on `n` links it in and merges it, and
        it is to become the first free node. */
    method ReleaseFirst(n: nat, h: nat, ghost i: nat)
      requires Recreated(h, i)
      requires freeBlocks != [] && freeBlocks[0] == n && forall m :: 0 <= m < i ==> !View()[m].free
      modifies this`next, this`prev, this`blocks, this`nextFree, this`prevFree, this`freeBlocks, this`size
      ensures ListsLinked() && Arranged(size, blocks, freeBlocks, At(h), bytesAllocated, first, hi)
      ensures View() == Release(old(View()), i)
      ensures firstFree == old(firstFree) && bytesAllocated == old(bytesAllocated)
    {
      ghost var v, s0, b0, fb0 := View(), size, blocks, freeBlocks;
      RankFlat(v, 0, i);
      assert Rank(v, 0) == 0 by {
        assert v[..0] == [];
      }
      NotListed(v, first, hi, i);
      ReleaseNextFlag(size, blocks, first, hi, i);
      ReleasePrevFlag(size, blocks, first, hi, i);
      ReleaseFreeList(v, first, hi, i);
      PrependToFreelist(n, h, 0, i);
      ReleaseArranged(s0, b0, fb0, firstFree, bytesAllocated + v[i].size, first, hi, i,
                      size, blocks, freeBlocks, At(h), bytesAllocated);
    }

    /** The steps of `allocate` once the free node at `n`, the `i`-th block and the `r`-th free
        block, is found to hold `fp` bytes: it is split when the rest can hold a node, then taken. */
    method Take(n: nat, fp: nat, ghost i: nat, ghost r: nat)
      requires Valid()
      requires i < |blocks| && blocks[i] == n && View()[i].free && fp <= View()[i].size
      requires r < |freeBlocks| && freeBlocks[r] == n
      requires fp % A == 0 && N <= fp
      modifies this`next, this`prev, this`blocks, this`nextFree, this`prevFree, this`freeBlocks, this`size
      modifies this`firstFree, this`bytesAllocated
      ensures Valid() && View() == Carve(old(View()), i, fp)
    {
      assert View()[i].size == Size(Word(size, n));
      if Size(Word(size, n)) - fp >= N {
        TakeSplit(n, fp, i, r);
      } else {
        TakeWhole(n, fp, i, r);
      }
    }

    /** `allocate` on a free node that it splits. */
    method TakeSplit(n: nat, fp: nat, ghost i: nat, ghost r: nat)
      requires Valid()
      requires i < |blocks| && blocks[i] == n && View()[i].free && fp <= View()[i].size && Splits(View(), i, fp)
      requires r < |freeBlocks| && freeBlocks[r] == n
      requires fp % A == 0 && N <= fp
      modifies this`next, this`prev, this`blocks, this`nextFree, this`prevFree, this`freeBlocks, this`size
      modifies this`firstFree, this`bytesAllocated
      ensures Valid() && View() == Carve(old(View()), i, fp)
    {
      ghost var s0, b0, fb0, ff0, by0 := size, blocks, freeBlocks, firstFree, bytesAllocated;
      PackedWord(fp);
      var _ := Split(n, fp, i, r);
      assert Word(size, n) == fp;
      Unhook(n, r);
      TakeSplitArranged(s0, b0, fb0, ff0, by0, first, hi, i, r, fp, size, blocks, freeBlocks, firstFree, bytesAllocated);
    }

    /** `allocate` on a free node that it takes whole. */
    method TakeWhole(n: nat, fp: nat, ghost i: nat, ghost r: nat)
      requires Valid()
      requires i < |blocks| && blocks[i] == n && View()[i].free && fp <= View()[i].size && !Splits(View(), i, fp)
      requires r < |freeBlocks| && freeBlocks[r] == n
      requires fp % A == 0 && N <= fp
      modifies this`nextFree, this`prevFree, this`freeBlocks, this`size, this`firstFree, this`bytesAllocated
      ensures Valid() && View() == Carve(old(View()), i, fp)
    {
      ghost var s0, fb0, ff0, by0 := size, freeBlocks, firstFree, bytesAllocated;
      assert View()[i].size == Size(Word(size, n));
      Unhook(n, r);
      TakeWholeArranged(s0, blocks, fb0, ff0, by0, first, hi, i, r, fp, size, freeBlocks, firstFree, bytesAllocated);
    }

    /** The steps of `allocate` that take the free node at `n`, the `r`-th of the free list: it is
        unlinked from the free list, which flags it allocated, `m_first_free` moves on to its free
        successor when it was the first, and its size is counted. */
    method Unhook(n: nat, ghost r: nat)
      requires ListsLinked() && r < |freeBlocks| && freeBlocks[r] == n
      modifies this`nextFree, this`prevFree, this`freeBlocks, this`size, this`firstFree, this`bytesAllocated
      ensures size == old(size)[n := Taken(Word(old(size), n))]
      ensures freeBlocks == Drop(old(freeBlocks), r)
      ensures firstFree == if old(firstFree) == At(n) then NextIn(old(freeBlocks), r) else old(firstFree)
      ensures bytesAllocated == old(bytesAllocated) + Size(Word(old(size), n))
      ensures ListsLinked() && blocks == old(blocks)
    {
      LinksOf(nextFree, prevFree, freeBlocks, r);
      var _ := UnlinkFromFreelist(n, r);
      if firstFree == At(n) {
        firstFree := Get(nextFree, n);
      }
      PackedWord(Word(old(size), n));
      bytesAllocated := bytesAllocated + Size(Word(size, n));
    }

    /** The opening of `append_to_freelist`: `p` is linked in after `n` and flagged free. */
    method InsertFreeAfter(n: nat, p: nat, ghost r: nat)
      requires ListsLinked()
      requires r < |freeBlocks| && freeBlocks[r] == n && p !in freeBlocks
      modifies this`nextFree, this`prevFree, this`freeBlocks, this`size
      ensures size == old(size)[p := Freed(Word(old(size), p))]
      ensures freeBlocks == InsertAt(old(freeBlocks), r + 1, p)
      ensures r + 1 < |freeBlocks| && freeBlocks[r] == n && freeBlocks[r + 1] == p
      ensures r + 2 < |freeBlocks| ==> freeBlocks[r + 2] == old(freeBlocks)[r + 1]
      ensures ListsLinked() && blocks == old(blocks)
    {
      InsertAtIndex(freeBlocks, r + 1, p);
      LinkFreeAfter(n, p, r);
      SetFree(p);
    }

    /** The opening of `prepend_to_freelist`: `p` is linked in before `n` and flagged free. */
    method InsertFreeBefore(n: nat, p: nat, ghost r: nat)
      requires ListsLinked()
      requires r < |freeBlocks| && freeBlocks[r] == n && p !in freeBlocks
      modifies this`nextFree, this`prevFree, this`freeBlocks, this`size
      ensures size == old(size)[p := Freed(Word(old(size), p))]
      ensures freeBlocks == InsertAt(old(freeBlocks), r, p)
      ensures r + 1 < |freeBlocks| && freeBlocks[r] == p && freeBlocks[r + 1] == n
      ensures r > 0 ==> freeBlocks[r - 1] == old(freeBlocks)[r - 1]
      ensures ListsLinked() && blocks == old(blocks)
    {
      InsertAtIndex(freeBlocks, r, p);
      LinkFreeBefore(n, p, r);
      SetFree(p);
    }

    /** The four link assignments that open `append_to_freelist`. */
    method LinkFreeAfter(n: nat, p: nat, ghost r: nat)
      requires Linked(nextFree, prevFree, freeBlocks) && Distinct(freeBlocks)
      requires r < |freeBlocks| && freeBlocks[r] == n && p !in freeBlocks
      modifies this`nextFree, this`prevFree, this`freeBlocks
      ensures nextFree == Spliced(old(nextFree), n, p) && prevFree == SplicedBack(old(nextFree), old(prevFree), n, p)
      ensures freeBlocks == InsertAt(old(freeBlocks), r + 1, p)
      ensures Linked(nextFree, prevFree, freeBlocks) && Distinct(freeBlocks)
      ensures next == old(next) && prev == old(prev) && blocks == old(blocks) && size == old(size)
    {
      if Get(nextFree, n).At? {
        prevFree := prevFree[Get(nextFree, n).addr := At(p)];
      }
      nextFree := nextFree[p := Get(nextFree, n)];
      prevFree := prevFree[p := At(n)];
      nextFree := nextFree[n := At(p)];
      freeBlocks := InsertAt(freeBlocks, r + 1, p);
      SpliceAfter(old(nextFree), old(prevFree), old(freeBlocks), r, p);
    }

    /** The four link assignments that open `prepend_to_freelist`. */
    method LinkFreeBefore(n: nat, p: nat, ghost r: nat)
      requires Linked(nextFree, prevFree, freeBlocks) && Distinct(freeBlocks)
      requires r < |freeBlocks| && freeBlocks[r] == n && p !in freeBlocks
      modifies this`nextFree, this`prevFree, this`freeBlocks
      ensures nextFree == SplicedBack(old(prevFree), old(nextFree), n, p) && prevFree == Spliced(old(prevFree), n, p)
      ensures freeBlocks == InsertAt(old(freeBlocks), r, p)
      ensures Linked(nextFree, prevFree, freeBlocks) && Distinct(freeBlocks)
      ensures next == old(next) && prev == old(prev) && blocks == old(blocks) && size == old(size)
    {
      if Get(prevFree, n).At? {
        nextFree := nextFree[Get(prevFree, n).addr := At(p)];
      }
      prevFree := prevFree[p := Get(prevFree, n)];
      nextFree := nextFree[p := At(n)];
      prevFree := prevFree[n := At(p)];
      freeBlocks := InsertAt(freeBlocks, r, p);
      SpliceBefore(old(nextFree), old(prevFree), old(freeBlocks), r, p);
    }
  }
}
