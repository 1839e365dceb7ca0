/** The abstract view of an arena: its blocks in address order, each with its start, its full size
    (header included) and its status. The engine's first-fit allocation and coalescing release are
    specified here as functions on that view, together with the invariants they keep. */
module Blocks {
  import opened Layout
  import Seqs

  datatype Block = Block(start: nat, size: nat, free: bool)

  /** One past the last byte of a block. */
  function End(b: Block): nat
  {
    b.start + b.size
  }

  /** The blocks partition `[lo, hi)`: they follow each other without gaps from `lo` to `hi`, and each
      is large enough to hold a free node. */
  predicate Tiles(v: seq<Block>, lo: nat, hi: nat)
  {
    && Abuts(v, lo, hi)
    && (forall k :: 0 <= k < |v| ==> v[k].size >= N)
  }

  /** The blocks follow each other without gaps from `lo` to `hi`. */
  predicate Abuts(v: seq<Block>, lo: nat, hi: nat)
  {
    && |v| > 0
    && v[0].start == lo
    && End(v[|v| - 1]) == hi
    && (forall k :: 0 <= k < |v| - 1 ==> End(v[k]) == v[k + 1].start)
  }

  /** Every block has an even size, so that the low bit of its size word is free for the allocated
      flag. */
  predicate EvenSizes(v: seq<Block>)
  {
    forall k :: 0 <= k < |v| ==> v[k].size % 2 == 0
  }

  /** Every block starts at a multiple of the alignment. */
  predicate Aligned(v: seq<Block>)
  {
    forall k :: 0 <= k < |v| ==> v[k].start % A == 0
  }

  /** No two address-adjacent blocks are both free. */
  predicate Coalesced(v: seq<Block>)
  {
    forall k :: 0 <= k < |v| - 1 ==> !(v[k].free && v[k + 1].free)
  }

  /** The starts of the free blocks, in address order: what the free list must hold. */
  function FreeStarts(v: seq<Block>): seq<nat>
  {
    if |v| == 0 then [] else (if v[0].free then [v[0].start] else []) + FreeStarts(v[1..])
  }

  /** The sum of the sizes of the allocated blocks. */
  function AllocatedBytes(v: seq<Block>): nat
  {
    if |v| == 0 then 0 else (if v[0].free then 0 else v[0].size) + AllocatedBytes(v[1..])
  }

  /** The sum of the sizes of all blocks. */
  function TotalBytes(v: seq<Block>): nat
  {
    if |v| == 0 then 0 else v[0].size + TotalBytes(v[1..])
  }

  /** The index of the first free block, in address order, of at least `fp` bytes; `|v|` if none. */
  function FirstFit(v: seq<Block>, fp: nat): (i: nat)
    ensures i <= |v|
    ensures i < |v| ==> v[i].free && v[i].size >= fp
    ensures forall k :: 0 <= k < i ==> !(v[k].free && v[k].size >= fp)
  {
    if |v| == 0 then 0
    else if v[0].free && v[0].size >= fp then 0
    else 1 + FirstFit(v[1..], fp)
  }

  /** Whether carving `fp` bytes out of block `i` leaves room for a node, so that the block is split. */
  predicate Splits(v: seq<Block>, i: nat, fp: nat)
    requires i < |v| && fp <= v[i].size
  {
    v[i].size - fp >= N
  }

  /** The size the allocated block has once `fp` bytes are carved out of block `i`. */
  function CarvedSize(v: seq<Block>, i: nat, fp: nat): nat
    requires i < |v| && fp <= v[i].size
  {
    if Splits(v, i, fp) then fp else v[i].size
  }

  /** Allocation of a footprint `fp` from free block `i`: the block is split into an allocated prefix of
      `fp` bytes and a free remainder when the remainder can hold a node; otherwise the whole block is
      allocated. */
  function Carve(v: seq<Block>, i: nat, fp: nat): seq<Block>
    requires i < |v| && fp <= v[i].size
  {
    Replaced(v, i, i + 1, CarvedWindow(v, i, fp))
  }

  /** Whether releasing block `i` absorbs its address successor, or is absorbed by its predecessor. */
  predicate JoinsNext(v: seq<Block>, i: nat)
  {
    i + 1 < |v| && v[i + 1].free
  }

  predicate JoinsPrev(v: seq<Block>, i: nat)
    requires i < |v|
  {
    i > 0 && v[i - 1].free
  }

  /** Release of block `i`: it becomes free and is merged with whichever of its two address neighbours
      are free. */
  function Release(v: seq<Block>, i: nat): seq<Block>
    requires i < |v|
  {
    Replaced(v, ReleaseFirst(v, i), ReleaseLast(v, i) + 1, [Merged(v, i)])
  }

  // ---------------------------------------------------------------------------------------------
  // Sums and filters over concatenations

  lemma {:induction false} FreeStartsAppend(a: seq<Block>, b: seq<Block>)
    ensures FreeStarts(a + b) == FreeStarts(a) + FreeStarts(b)
  {
    if |a| == 0 {
      assert a + b == b;
    } else {
      Seqs.Cons(a, b);
      FreeStartsAppend(a[1..], b);
      var h := if a[0].free then [a[0].start] else [];
      assert FreeStarts(a + b) == h + (FreeStarts(a[1..]) + FreeStarts(b));
      assert FreeStarts(a) == h + FreeStarts(a[1..]);
    }
  }

  lemma {:induction false} AllocatedAppend(a: seq<Block>, b: seq<Block>)
    ensures AllocatedBytes(a + b) == AllocatedBytes(a) + AllocatedBytes(b)
  {
    if |a| == 0 {
      assert a + b == b;
    } else {
      Seqs.Cons(a, b);
      AllocatedAppend(a[1..], b);
    }
  }

  lemma {:induction false} TotalAppend(a: seq<Block>, b: seq<Block>)
    ensures TotalBytes(a + b) == TotalBytes(a) + TotalBytes(b)
  {
    if |a| == 0 {
      assert a + b == b;
    } else {
      Seqs.Cons(a, b);
      TotalAppend(a[1..], b);
    }
  }

  /** The filters of a view split at block `k` into the part before, block `k` itself, and the rest. */
  lemma Around(v: seq<Block>, k: nat)
    requires k < |v|
    ensures FreeStarts(v) == FreeStarts(v[..k]) + (if v[k].free then [v[k].start] else []) + FreeStarts(v[k + 1..])
    ensures AllocatedBytes(v) == AllocatedBytes(v[..k]) + (if v[k].free then 0 else v[k].size) + AllocatedBytes(v[k + 1..])
  {
    AroundFree(v, k);
    AroundAllocated(v, k);
  }

  lemma AroundFree(v: seq<Block>, k: nat)
    requires k < |v|
    ensures FreeStarts(v) == FreeStarts(v[..k]) + (if v[k].free then [v[k].start] else []) + FreeStarts(v[k + 1..])
  {
    Seqs.Around(v, k);
    Assembled(v[..k], [v[k]], v[k + 1..]);
    SingleFilters(v[k]);
  }

  lemma AroundAllocated(v: seq<Block>, k: nat)
    requires k < |v|
    ensures AllocatedBytes(v) == AllocatedBytes(v[..k]) + (if v[k].free then 0 else v[k].size) + AllocatedBytes(v[k + 1..])
  {
    Seqs.Around(v, k);
    Assembled(v[..k], [v[k]], v[k + 1..]);
    SingleFilters(v[k]);
  }

  /** The filters of a view assembled from a prefix, some middle blocks and a suffix. */
  lemma Assembled(a: seq<Block>, m: seq<Block>, b: seq<Block>)
    ensures FreeStarts(a + m + b) == FreeStarts(a) + FreeStarts(m) + FreeStarts(b)
    ensures AllocatedBytes(a + m + b) == AllocatedBytes(a) + AllocatedBytes(m) + AllocatedBytes(b)
  {
    FreeStartsAppend(a + m, b);
    FreeStartsAppend(a, m);
    AllocatedAppend(a + m, b);
    AllocatedAppend(a, m);
  }

  // ---------------------------------------------------------------------------------------------
  // Geometry of a tiling

  lemma {:induction false} OrderedFrom(v: seq<Block>, lo: nat, hi: nat, a: nat, b: nat)
    requires Tiles(v, lo, hi) && a < b < |v|
    ensures End(v[a]) <= v[b].start
    decreases b - a
  {
    if b > a + 1 {
      OrderedFrom(v, lo, hi, a, b - 1);
    }
  }

  /** In a tiling, every block ends at or before the start of every later block, and all blocks lie
      within `[lo, hi)`. */
  lemma Ordered(v: seq<Block>, lo: nat, hi: nat)
    requires Tiles(v, lo, hi)
    ensures forall a, b :: 0 <= a < b < |v| ==> End(v[a]) <= v[b].start
    ensures forall a, b :: 0 <= a < b < |v| ==> v[a].start < v[b].start
    ensures forall k :: 0 <= k < |v| ==> lo <= v[k].start && End(v[k]) <= hi
  {
    forall a, b | 0 <= a < b < |v|
      ensures End(v[a]) <= v[b].start
    {
      OrderedFrom(v, lo, hi, a, b);
    }
    forall k | 0 <= k < |v|
      ensures lo <= v[k].start && End(v[k]) <= hi
    {
      if k > 0 {
        OrderedFrom(v, lo, hi, 0, k);
      }
      if k < |v| - 1 {
        OrderedFrom(v, lo, hi, k, |v| - 1);
      }
    }
  }

  /** Two distinct blocks of a tiling, and hence their payloads, never overlap. */
  lemma Disjoint(v: seq<Block>, lo: nat, hi: nat, a: nat, b: nat)
    requires Tiles(v, lo, hi) && a < |v| && b < |v| && a != b
    ensures End(v[a]) <= v[b].start || End(v[b]) <= v[a].start
  {
    if a < b {
      OrderedFrom(v, lo, hi, a, b);
    } else {
      OrderedFrom(v, lo, hi, b, a);
    }
  }

  lemma {:induction false} TotalOfTiling(v: seq<Block>, lo: nat, hi: nat)
    requires Abuts(v, lo, hi)
    ensures TotalBytes(v) == hi - lo
    decreases |v|
  {
    if |v| > 1 {
      AbutsTail(v, lo, hi);
      TotalOfTiling(v[1..], v[1].start, hi);
    }
  }

  /** The blocks after the first still abut, from the second block's start. */
  lemma AbutsTail(v: seq<Block>, lo: nat, hi: nat)
    requires Abuts(v, lo, hi) && |v| > 1
    ensures Abuts(v[1..], v[1].start, hi)
  {
    var w := v[1..];
    forall k | 0 <= k < |w| - 1
      ensures End(w[k]) == w[k + 1].start
    {
      assert w[k] == v[k + 1] && w[k + 1] == v[k + 2];
    }
  }

  /** Every address of `[lo, hi)` lies in some block of an abutting view. */
  lemma {:induction false} Covers(v: seq<Block>, lo: nat, hi: nat, a: nat) returns (k: nat)
    requires Abuts(v, lo, hi) && lo <= a < hi
    ensures k < |v| && v[k].start <= a < End(v[k])
    decreases |v|
  {
    if a < End(v[0]) {
      k := 0;
    } else {
      AbutsTail(v, lo, hi);
      var j := Covers(v[1..], v[1].start, hi, a);
      k := j + 1;
    }
  }

  lemma {:induction false} AllocatedAtMostTotal(v: seq<Block>)
    ensures AllocatedBytes(v) <= TotalBytes(v)
    ensures AllocatedBytes(v) == TotalBytes(v) ==> forall k :: 0 <= k < |v| ==> !v[k].free || v[k].size == 0
    ensures AllocatedBytes(v) == 0 ==> forall k :: 0 <= k < |v| ==> v[k].free || v[k].size == 0
  {
    if |v| > 0 {
      AllocatedAtMostTotal(v[1..]);
      forall k | 0 < k < |v|
        ensures v[k] == v[1..][k - 1]
      {
      }
    }
  }

  /** The allocated bytes never exceed the arena. */
  lemma AllocatedBound(v: seq<Block>, lo: nat, hi: nat)
    requires Tiles(v, lo, hi)
    ensures AllocatedBytes(v) <= hi - lo
  {
    TotalOfTiling(v, lo, hi);
    AllocatedAtMostTotal(v);
  }

  /** No byte is allocated exactly when every block is free: a tiling has no empty block. */
  lemma {:induction false} NothingAllocated(v: seq<Block>)
    requires forall k :: 0 <= k < |v| ==> v[k].size > 0
    ensures AllocatedBytes(v) == 0 <==> forall k :: 0 <= k < |v| ==> v[k].free
  {
    if |v| > 0 {
      NothingAllocated(v[1..]);
      assert forall k :: 0 < k < |v| ==> v[k] == v[1..][k - 1];
      assert (forall k :: 0 <= k < |v| ==> v[k].free) <==> v[0].free && forall k :: 0 <= k < |v[1..]| ==> v[1..][k].free;
    }
  }

  /** Once nothing is allocated, a coalesced tiling is one free block spanning the whole arena. */
  lemma AllFreeIsOneBlock(v: seq<Block>, lo: nat, hi: nat)
    requires Tiles(v, lo, hi) && Coalesced(v) && AllocatedBytes(v) == 0
    ensures |v| == 1 && v[0].free && v[0].start == lo && End(v[0]) == hi
  {
    AllocatedAtMostTotal(v);
  }

  // ---------------------------------------------------------------------------------------------
  // The free starts

  /** Every free start is the start of a free block, and it is at that block's rank in the filter. */
  lemma {:induction false} FreeStartsIndex(v: seq<Block>, j: nat)
    requires j < |FreeStarts(v)|
    ensures exists i :: 0 <= i < |v| && v[i].free && v[i].start == FreeStarts(v)[j] && |FreeStarts(v[..i])| == j
  {
    assert |v| > 0;
    if v[0].free && j == 0 {
      assert v[..0] == [];
      assert v[0].free && v[0].start == FreeStarts(v)[0] && |FreeStarts(v[..0])| == 0;
    } else {
      var d := if v[0].free then 1 else 0;
      FreeStartsIndex(v[1..], j - d);
      var i :| 0 <= i < |v[1..]| && v[1..][i].free && v[1..][i].start == FreeStarts(v[1..])[j - d]
               && |FreeStarts(v[1..][..i])| == j - d;
      Seqs.HeadPrefix(v, i);
      FreeStartsAppend([v[0]], v[1..][..i]);
      assert v[i + 1].free && v[i + 1].start == FreeStarts(v)[j] && |FreeStarts(v[..i + 1])| == j;
    }
  }

  /** The filter of a prefix up to a free block is shorter than the filter of any longer prefix. */
  lemma FreeRankGrows(v: seq<Block>, k: nat, i: nat)
    requires k < i <= |v| && v[k].free
    ensures |FreeStarts(v[..k])| < |FreeStarts(v[..i])|
  {
    var p := v[..i];
    assert p[..k] == v[..k];
    Around(p, k);
  }

  /** Every free start is the start of some free block. */
  lemma FreeStartsSound(v: seq<Block>, x: nat)
    requires x in FreeStarts(v)
    ensures exists k :: 0 <= k < |v| && v[k].free && v[k].start == x
  {
    var j :| 0 <= j < |FreeStarts(v)| && FreeStarts(v)[j] == x;
    FreeStartsIndex(v, j);
  }

  /** The free starts of a tiling are strictly increasing. */
  lemma FreeStartsIncrease(v: seq<Block>, lo: nat, hi: nat)
    requires Tiles(v, lo, hi)
    ensures forall a, b :: 0 <= a < b < |FreeStarts(v)| ==> FreeStarts(v)[a] < FreeStarts(v)[b]
  {
    Ordered(v, lo, hi);
    var fs := FreeStarts(v);
    forall a, b | 0 <= a < b < |fs|
      ensures fs[a] < fs[b]
    {
      FreeStartsIndex(v, a);
      var ia :| 0 <= ia < |v| && v[ia].free && v[ia].start == fs[a] && |FreeStarts(v[..ia])| == a;
      FreeStartsIndex(v, b);
      var ib :| 0 <= ib < |v| && v[ib].free && v[ib].start == fs[b] && |FreeStarts(v[..ib])| == b;
      if ib <= ia {
        if ib < ia {
          FreeRankGrows(v, ib, ia);
        }
        assert false;
      }
    }
  }


  // ---------------------------------------------------------------------------------------------
  // Replacing a window of blocks

  /** The view with blocks `p` up to (excluding) `q` replaced by `m`. */
  function Replaced(v: seq<Block>, p: nat, q: nat, m: seq<Block>): seq<Block>
    requires p <= q <= |v|
  {
    v[..p] + m + v[q..]
  }

  lemma ReplacedAt(v: seq<Block>, p: nat, q: nat, m: seq<Block>)
    requires p <= q <= |v|
    ensures |Replaced(v, p, q, m)| == |v| - (q - p) + |m|
    ensures forall k :: 0 <= k < p ==> Replaced(v, p, q, m)[k] == v[k]
    ensures forall k :: 0 <= k < |m| ==> Replaced(v, p, q, m)[p + k] == m[k]
    ensures forall k :: q <= k < |v| ==> Replaced(v, p, q, m)[k - q + p + |m|] == v[k]
  {
  }

  /** A window that tiles exactly the range of the blocks it replaces keeps the whole tiling. */
  lemma ReplaceTiles(v: seq<Block>, lo: nat, hi: nat, p: nat, q: nat, m: seq<Block>)
    requires Tiles(v, lo, hi) && p < q <= |v|
    requires Tiles(m, v[p].start, End(v[q - 1]))
    ensures Tiles(Replaced(v, p, q, m), lo, hi)
  {
    ReplaceAbuts(v, lo, hi, p, q, m);
    var w := Replaced(v, p, q, m);
    ReplacedAt(v, p, q, m);
    forall k | 0 <= k < |w|
      ensures w[k].size >= N
    {
      if k < p {
        assert w[k] == v[k];
      } else if k < p + |m| {
        assert w[k] == m[k - p];
      } else {
        assert w[k] == v[k - (p + |m| - q)];
      }
    }
  }

  lemma ReplaceAbuts(v: seq<Block>, lo: nat, hi: nat, p: nat, q: nat, m: seq<Block>)
    requires Abuts(v, lo, hi) && p < q <= |v|
    requires Abuts(m, v[p].start, End(v[q - 1]))
    ensures Abuts(Replaced(v, p, q, m), lo, hi)
  {
    var w := Replaced(v, p, q, m);
    ReplacedAt(v, p, q, m);
    var d := p + |m| - q;
    forall k | 0 <= k < |w| - 1
      ensures End(w[k]) == w[k + 1].start
    {
      if k + 1 < p {
        assert w[k] == v[k] && w[k + 1] == v[k + 1];
      } else if k + 1 == p {
        assert w[k] == v[k] && w[k + 1] == m[0];
      } else if k + 1 < p + |m| {
        assert w[k] == m[k - p] && w[k + 1] == m[k + 1 - p];
      } else if k + 1 == p + |m| {
        assert w[k] == m[|m| - 1] && w[k + 1] == v[q];
      } else {
        assert w[k] == v[k - d] && w[k + 1] == v[k + 1 - d];
      }
    }
    if q < |v| {
      assert w[|w| - 1] == v[|v| - 1];
    } else {
      assert w[|w| - 1] == m[|m| - 1];
    }
    if p == 0 {
      assert w[0] == m[0];
    } else {
      assert w[0] == v[0];
    }
  }

  /** A window of even sizes keeps all sizes even. */
  lemma ReplaceEven(v: seq<Block>, p: nat, q: nat, m: seq<Block>)
    requires EvenSizes(v) && EvenSizes(m) && p <= q <= |v|
    ensures EvenSizes(Replaced(v, p, q, m))
  {
    var w := Replaced(v, p, q, m);
    ReplacedAt(v, p, q, m);
    forall k | 0 <= k < |w|
      ensures w[k].size % 2 == 0
    {
      if k < p {
        assert w[k] == v[k];
      } else if k < p + |m| {
        assert w[k] == m[k - p];
      } else {
        assert w[k] == v[k - (p + |m| - q)];
      }
    }
  }

  /** An aligned window keeps all blocks aligned. */
  lemma ReplaceAligned(v: seq<Block>, p: nat, q: nat, m: seq<Block>)
    requires Aligned(v) && Aligned(m) && p <= q <= |v|
    ensures Aligned(Replaced(v, p, q, m))
  {
    var w := Replaced(v, p, q, m);
    ReplacedAt(v, p, q, m);
    forall k | 0 <= k < |w|
      ensures w[k].start % A == 0
    {
      if k < p {
        assert w[k] == v[k];
      } else if k < p + |m| {
        assert w[k] == m[k - p];
      } else {
        assert w[k] == v[k - (p + |m| - q)];
      }
    }
  }

  /** A coalesced window whose free ends do not meet free neighbours keeps the whole view coalesced. */
  lemma ReplaceCoalesced(v: seq<Block>, p: nat, q: nat, m: seq<Block>)
    requires Coalesced(v) && Coalesced(m) && p <= q <= |v| && |m| > 0
    requires p > 0 && m[0].free ==> !v[p - 1].free
    requires q < |v| && m[|m| - 1].free ==> !v[q].free
    ensures Coalesced(Replaced(v, p, q, m))
  {
    var w := Replaced(v, p, q, m);
    ReplacedAt(v, p, q, m);
    var d := p + |m| - q;
    forall k | 0 <= k < |w| - 1
      ensures !(w[k].free && w[k + 1].free)
    {
      if k + 1 < p {
        assert w[k] == v[k] && w[k + 1] == v[k + 1];
      } else if k + 1 == p {
        assert w[k] == v[k] && w[k + 1] == m[0];
      } else if k + 1 < p + |m| {
        assert w[k] == m[k - p] && w[k + 1] == m[k + 1 - p];
      } else if k + 1 == p + |m| {
        assert w[k] == m[|m| - 1] && w[k + 1] == v[q];
      } else {
        assert w[k] == v[k - d] && w[k + 1] == v[k + 1 - d];
      }
    }
  }

  lemma ReplaceFreeStarts(v: seq<Block>, p: nat, q: nat, m: seq<Block>)
    requires p <= q <= |v|
    ensures FreeStarts(v) == FreeStarts(v[..p]) + FreeStarts(v[p..q]) + FreeStarts(v[q..])
    ensures FreeStarts(Replaced(v, p, q, m)) == FreeStarts(v[..p]) + FreeStarts(m) + FreeStarts(v[q..])
  {
    Seqs.Window(v, p, q);
    FreeStartsAppend(v[..p] + v[p..q], v[q..]);
    FreeStartsAppend(v[..p], v[p..q]);
    FreeStartsAppend(v[..p] + m, v[q..]);
    FreeStartsAppend(v[..p], m);
  }

  lemma ReplaceAllocated(v: seq<Block>, p: nat, q: nat, m: seq<Block>)
    requires p <= q <= |v|
    ensures AllocatedBytes(v) == AllocatedBytes(v[..p]) + AllocatedBytes(v[p..q]) + AllocatedBytes(v[q..])
    ensures AllocatedBytes(Replaced(v, p, q, m))
            == AllocatedBytes(v[..p]) + AllocatedBytes(m) + AllocatedBytes(v[q..])
  {
    Seqs.Window(v, p, q);
    AllocatedAppend(v[..p] + v[p..q], v[q..]);
    AllocatedAppend(v[..p], v[p..q]);
    AllocatedAppend(v[..p] + m, v[q..]);
    AllocatedAppend(v[..p], m);
  }

  lemma SingleFilters(x: Block)
    ensures FreeStarts([x]) == (if x.free then [x.start] else [])
    ensures AllocatedBytes([x]) == (if x.free then 0 else x.size)
  {
    assert [x][1..] == [];
  }

  lemma PairFilters(x: Block, y: Block)
    ensures FreeStarts([x, y]) == FreeStarts([x]) + FreeStarts([y])
    ensures AllocatedBytes([x, y]) == AllocatedBytes([x]) + AllocatedBytes([y])
  {
    Seqs.Pair(x, y);
    FreeStartsAppend([x], [y]);
    AllocatedAppend([x], [y]);
  }

  // ---------------------------------------------------------------------------------------------
  // Allocation keeps the invariants

  /** The blocks that replace block `i` when `fp` bytes are carved out of it. */
  function CarvedWindow(v: seq<Block>, i: nat, fp: nat): seq<Block>
    requires i < |v| && fp <= v[i].size
  {
    if Splits(v, i, fp) then [Block(v[i].start, fp, false), Block(v[i].start + fp, v[i].size - fp, true)]
    else [Block(v[i].start, v[i].size, false)]
  }

  lemma CarveTiles(v: seq<Block>, lo: nat, hi: nat, i: nat, fp: nat)
    requires Tiles(v, lo, hi) && i < |v| && N <= fp <= v[i].size
    ensures Tiles(Carve(v, i, fp), lo, hi)
  {
    var m := CarvedWindow(v, i, fp);
    assert Tiles(m, v[i].start, End(v[i]));
    ReplaceTiles(v, lo, hi, i, i + 1, m);
  }

  lemma CarveEven(v: seq<Block>, i: nat, fp: nat)
    requires EvenSizes(v) && i < |v| && fp <= v[i].size && fp % 2 == 0
    ensures EvenSizes(Carve(v, i, fp))
  {
    var m := CarvedWindow(v, i, fp);
    assert v[i].size % 2 == 0;
    assert EvenSizes(m);
    ReplaceEven(v, i, i + 1, m);
  }

  lemma CarveAligned(v: seq<Block>, i: nat, fp: nat)
    requires Aligned(v) && i < |v| && fp <= v[i].size && fp % A == 0
    ensures Aligned(Carve(v, i, fp))
  {
    var m := CarvedWindow(v, i, fp);
    assert v[i].start % A == 0;
    AlignedSum(v[i].start, fp);
    assert Aligned(m);
    ReplaceAligned(v, i, i + 1, m);
  }

  lemma CarveCoalesced(v: seq<Block>, i: nat, fp: nat)
    requires Coalesced(v) && i < |v| && fp <= v[i].size && v[i].free
    ensures Coalesced(Carve(v, i, fp))
  {
    var m := CarvedWindow(v, i, fp);
    assert i + 1 < |v| ==> !v[i + 1].free;
    ReplaceCoalesced(v, i, i + 1, m);
  }

  /** The blocks that replace a carved block: they hold an allocated block of the carved size, and
      their only free start is the remainder's, when the block is split. */
  lemma CarvedWindowFilters(v: seq<Block>, i: nat, fp: nat)
    requires i < |v| && fp <= v[i].size
    ensures FreeStarts(CarvedWindow(v, i, fp)) == if Splits(v, i, fp) then [v[i].start + fp] else []
    ensures AllocatedBytes(CarvedWindow(v, i, fp)) == CarvedSize(v, i, fp)
  {
    var m := CarvedWindow(v, i, fp);
    if Splits(v, i, fp) {
      PairFilters(m[0], m[1]);
      SingleFilters(m[0]);
      SingleFilters(m[1]);
    } else {
      SingleFilters(m[0]);
    }
  }

  /** Allocation adds the carved size to the allocated bytes. */
  lemma CarveAllocated(v: seq<Block>, i: nat, fp: nat)
    requires i < |v| && fp <= v[i].size && v[i].free
    ensures AllocatedBytes(Carve(v, i, fp)) == AllocatedBytes(v) + CarvedSize(v, i, fp)
  {
    var m := CarvedWindow(v, i, fp);
    ReplaceAllocated(v, i, i + 1, m);
    assert v[i..i + 1] == [v[i]];
    SingleFilters(v[i]);
    CarvedWindowFilters(v, i, fp);
  }

  /** Allocation takes the carved block's start off the free starts, putting the remainder's start in
      its place when the block is split. */
  lemma CarveFreeStarts(v: seq<Block>, i: nat, fp: nat)
    requires i < |v| && fp <= v[i].size && v[i].free
    ensures FreeStarts(v) == FreeStarts(v[..i]) + [v[i].start] + FreeStarts(v[i + 1..])
    ensures FreeStarts(Carve(v, i, fp))
            == FreeStarts(v[..i]) + (if Splits(v, i, fp) then [v[i].start + fp] else []) + FreeStarts(v[i + 1..])
  {
    var m := CarvedWindow(v, i, fp);
    ReplaceFreeStarts(v, i, i + 1, m);
    assert v[i..i + 1] == [v[i]];
    SingleFilters(v[i]);
    CarvedWindowFilters(v, i, fp);
  }

  /** The block `Carve` leaves at index `i` starts where block `i` did, is allocated and holds at
      least `fp` bytes, more only when the remainder could not hold a node; the blocks before it keep
      their places. */
  lemma CarvedBlock(v: seq<Block>, i: nat, fp: nat)
    requires i < |v| && fp <= v[i].size
    ensures |Carve(v, i, fp)| == |v| + (if Splits(v, i, fp) then 1 else 0)
    ensures Carve(v, i, fp)[i] == Block(v[i].start, CarvedSize(v, i, fp), false)
    ensures fp <= CarvedSize(v, i, fp) && (CarvedSize(v, i, fp) == fp || v[i].size - fp < N)
    ensures forall k :: 0 <= k < i ==> Carve(v, i, fp)[k] == v[k]
  {
    ReplacedAt(v, i, i + 1, CarvedWindow(v, i, fp));
  }

  /** Releasing the block just carved out of a free block of a coalesced view gives the view back:
      the remainder, if any, is merged back into it and no other neighbour is free. */
  lemma ReleaseUndoesCarve(v: seq<Block>, i: nat, fp: nat)
    requires Coalesced(v) && i < |v| && v[i].free && fp <= v[i].size
    ensures Release(Carve(v, i, fp), i) == v
  {
    var m := CarvedWindow(v, i, fp);
    var c := Carve(v, i, fp);
    ReplacedAt(v, i, i + 1, m);
    assert i > 0 ==> !v[i - 1].free;
    assert i + 1 < |v| ==> !v[i + 1].free;
    assert !JoinsPrev(c, i);
    Seqs.Around(v, i);
    if Splits(v, i, fp) {
      assert JoinsNext(c, i);
      assert Merged(c, i) == v[i];
      assert c[..i] == v[..i] && c[i + 2..] == v[i + 1..];
    } else {
      assert !JoinsNext(c, i);
      assert Merged(c, i) == v[i];
      assert c[..i] == v[..i] && c[i + 1..] == v[i + 1..];
    }
  }

  // ---------------------------------------------------------------------------------------------
  // Release keeps the invariants

  /** The first and last index of the blocks that release of block `i` merges into one. */
  function ReleaseFirst(v: seq<Block>, i: nat): nat
    requires i < |v|
  {
    if JoinsPrev(v, i) then i - 1 else i
  }

  function ReleaseLast(v: seq<Block>, i: nat): nat
    requires i < |v|
  {
    if JoinsNext(v, i) then i + 1 else i
  }

  /** The merged block that replaces them. */
  function Merged(v: seq<Block>, i: nat): Block
    requires i < |v|
  {
    var size := (if JoinsPrev(v, i) then v[i - 1].size else 0) + v[i].size
                + (if JoinsNext(v, i) then v[i + 1].size else 0);
    Block(v[ReleaseFirst(v, i)].start, size, true)
  }

  lemma ReleaseTiles(v: seq<Block>, lo: nat, hi: nat, i: nat)
    requires Tiles(v, lo, hi) && i < |v|
    ensures Tiles(Release(v, i), lo, hi)
  {
    MergedTiles(v, lo, hi, i);
    ReplaceTiles(v, lo, hi, ReleaseFirst(v, i), ReleaseLast(v, i) + 1, [Merged(v, i)]);
  }

  /** The merged block exactly covers the blocks it replaces. */
  lemma MergedTiles(v: seq<Block>, lo: nat, hi: nat, i: nat)
    requires Tiles(v, lo, hi) && i < |v|
    ensures Tiles([Merged(v, i)], v[ReleaseFirst(v, i)].start, End(v[ReleaseLast(v, i)]))
  {
    var first, last := ReleaseFirst(v, i), ReleaseLast(v, i);
    var b := Merged(v, i);
    assert End(b) == End(v[last]) by {
      if first < i {
        assert End(v[i - 1]) == v[i].start;
      }
      if last > i {
        assert End(v[i]) == v[i + 1].start;
      }
    }
  }

  lemma ReleaseEven(v: seq<Block>, i: nat)
    requires EvenSizes(v) && i < |v|
    ensures EvenSizes(Release(v, i))
  {
    var first, last := ReleaseFirst(v, i), ReleaseLast(v, i);
    var before := if first < i then v[i - 1].size else 0;
    var after := if last > i then v[i + 1].size else 0;
    assert before % 2 == 0 && after % 2 == 0 && v[i].size % 2 == 0;
    EvenSum(before, v[i].size, after);
    ReplaceEven(v, first, last + 1, [Merged(v, i)]);
  }

  lemma ReleaseAligned(v: seq<Block>, i: nat)
    requires Aligned(v) && i < |v|
    ensures Aligned(Release(v, i))
  {
    var first := ReleaseFirst(v, i);
    assert Aligned([Merged(v, i)]) by {
      assert Merged(v, i).start == v[first].start;
    }
    ReplaceAligned(v, first, ReleaseLast(v, i) + 1, [Merged(v, i)]);
  }

  lemma ReleaseCoalesced(v: seq<Block>, i: nat)
    requires Coalesced(v) && i < |v|
    ensures Coalesced(Release(v, i))
  {
    var first, last := ReleaseFirst(v, i), ReleaseLast(v, i);
    assert first > 0 ==> !v[first - 1].free by {
      if first > 0 && first < i {
        assert v[first].free;
      }
    }
    assert last + 1 < |v| ==> !v[last + 1].free by {
      if last + 1 < |v| && last > i {
        assert v[last].free;
      }
    }
    ReplaceCoalesced(v, first, last + 1, [Merged(v, i)]);
  }

  /** The filters of the blocks that release of block `i` merges. */
  lemma ReleasedWindowFilters(v: seq<Block>, i: nat)
    requires i < |v| && !v[i].free
    ensures FreeStarts(v[ReleaseFirst(v, i)..ReleaseLast(v, i) + 1])
            == (if JoinsPrev(v, i) then [v[i - 1].start] else []) + (if JoinsNext(v, i) then [v[i + 1].start] else [])
    ensures AllocatedBytes(v[ReleaseFirst(v, i)..ReleaseLast(v, i) + 1]) == v[i].size
  {
    var before: seq<Block> := if JoinsPrev(v, i) then [v[i - 1]] else [];
    var after: seq<Block> := if JoinsNext(v, i) then [v[i + 1]] else [];
    ReleasedWindow(v, i);
    WindowFilters(before, v[i], after);
  }

  /** The filters of a window of at most three blocks whose outer blocks, if any, are free and whose
      middle block is allocated. */
  lemma WindowFilters(before: seq<Block>, x: Block, after: seq<Block>)
    requires !x.free && |before| <= 1 && |after| <= 1
    requires (|before| == 1 ==> before[0].free) && (|after| == 1 ==> after[0].free)
    ensures FreeStarts(before + [x] + after)
            == (if |before| == 1 then [before[0].start] else []) + (if |after| == 1 then [after[0].start] else [])
    ensures AllocatedBytes(before + [x] + after) == x.size
  {
    Assembled(before, [x], after);
    SingleFilters(x);
    if |before| == 1 {
      assert before == [before[0]];
      SingleFilters(before[0]);
    }
    if |after| == 1 {
      assert after == [after[0]];
      SingleFilters(after[0]);
    }
  }

  /** The blocks that release of block `i` merges: block `i` and whichever neighbours join it. */
  lemma ReleasedWindow(v: seq<Block>, i: nat)
    requires i < |v|
    ensures v[ReleaseFirst(v, i)..ReleaseLast(v, i) + 1]
            == (if JoinsPrev(v, i) then [v[i - 1]] else []) + [v[i]] + (if JoinsNext(v, i) then [v[i + 1]] else [])
  {
  }

  /** Release subtracts the released block's size from the allocated bytes. */
  lemma ReleaseAllocated(v: seq<Block>, i: nat)
    requires i < |v| && !v[i].free
    ensures AllocatedBytes(v) >= v[i].size
    ensures AllocatedBytes(Release(v, i)) == AllocatedBytes(v) - v[i].size
  {
    var first, last := ReleaseFirst(v, i), ReleaseLast(v, i);
    Seqs.Window(v, first, last + 1);
    AllocatedOf3(v[..first], v[first..last + 1], v[last + 1..]);
    ReleasedWindowFilters(v, i);
    var b := Merged(v, i);
    assert Release(v, i) == v[..first] + [b] + v[last + 1..];
    assert AllocatedBytes(Release(v, i)) == AllocatedBytes(v[..first]) + AllocatedBytes(v[last + 1..]) by {
      AllocatedOf3(v[..first], [b], v[last + 1..]);
      SingleFilters(b);
    }
  }

  lemma AllocatedOf3(a: seq<Block>, m: seq<Block>, b: seq<Block>)
    ensures AllocatedBytes(a + m + b) == AllocatedBytes(a) + AllocatedBytes(m) + AllocatedBytes(b)
  {
    AllocatedAppend(a + m, b);
    AllocatedAppend(a, m);
  }

  /** Release puts the merged block's start in place of the starts of the free neighbours it absorbs. */
  lemma ReleaseFreeStarts(v: seq<Block>, i: nat)
    requires i < |v| && !v[i].free
    ensures FreeStarts(v) == FreeStarts(v[..ReleaseFirst(v, i)])
                             + ((if JoinsPrev(v, i) then [v[i - 1].start] else [])
                                + (if JoinsNext(v, i) then [v[i + 1].start] else []))
                             + FreeStarts(v[ReleaseLast(v, i) + 1..])
    ensures FreeStarts(Release(v, i))
            == FreeStarts(v[..ReleaseFirst(v, i)]) + [Merged(v, i).start] + FreeStarts(v[ReleaseLast(v, i) + 1..])
  {
    var first, last := ReleaseFirst(v, i), ReleaseLast(v, i);
    Seqs.Window(v, first, last + 1);
    FreeStartsOf3(v[..first], v[first..last + 1], v[last + 1..]);
    ReleasedWindowFilters(v, i);
    ReleasedStarts(v, i);
  }

  lemma ReleasedStarts(v: seq<Block>, i: nat)
    requires i < |v|
    ensures FreeStarts(Release(v, i))
            == FreeStarts(v[..ReleaseFirst(v, i)]) + [Merged(v, i).start] + FreeStarts(v[ReleaseLast(v, i) + 1..])
  {
    var b := Merged(v, i);
    FreeStartsOf3(v[..ReleaseFirst(v, i)], [b], v[ReleaseLast(v, i) + 1..]);
    SingleFilters(b);
  }

  lemma FreeStartsOf3(a: seq<Block>, m: seq<Block>, b: seq<Block>)
    ensures FreeStarts(a + m + b) == FreeStarts(a) + FreeStarts(m) + FreeStarts(b)
  {
    FreeStartsAppend(a + m, b);
    FreeStartsAppend(a, m);
  }
}
