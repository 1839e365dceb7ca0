/** Intrusive doubly linked lists threaded through the block headers. Both the full block list
    (`m_next`, `m_prev`) and the free list (`m_next_free`, `m_prev_free`) are such a list: a forward
    and a backward link per address, which together must visit a sequence of addresses in order. */
module Links {

  /** A header pointer: null, or the address of a header. */
  datatype Ptr = Null | At(addr: nat)

  type LinkMap = map<nat, Ptr>

  function Head(ks: seq<nat>): (p: Ptr)
    ensures p == Null <==> ks == []
  {
    if ks == [] then Null else At(ks[0])
  }

  /** The link stored at `k`, null where none is. */
  function Get(m: LinkMap, k: nat): Ptr
  {
    if k in m then m[k] else Null
  }

  /** The link that the `i`-th element of the list must hold forward, and backward. */
  function NextIn(ks: seq<nat>, i: nat): Ptr
    requires i < |ks|
  {
    if i + 1 < |ks| then At(ks[i + 1]) else Null
  }

  function PrevIn(ks: seq<nat>, i: nat): Ptr
    requires i < |ks|
  {
    if i > 0 then At(ks[i - 1]) else Null
  }

  predicate Distinct(ks: seq<nat>)
  {
    forall a, b :: 0 <= a < b < |ks| ==> ks[a] != ks[b]
  }

  /** `fw` and `bw` link the addresses `ks`, in this order, into a null-terminated doubly linked list. */
  predicate Linked(fw: LinkMap, bw: LinkMap, ks: seq<nat>)
  {
    forall i :: 0 <= i < |ks| ==> LinkedAt(fw, bw, ks, i)
  }

  /** The `i`-th element of `ks` holds the links of its place in the list. */
  predicate LinkedAt(fw: LinkMap, bw: LinkMap, ks: seq<nat>, i: nat)
    requires i < |ks|
  {
    ks[i] in fw && ks[i] in bw && fw[ks[i]] == NextIn(ks, i) && bw[ks[i]] == PrevIn(ks, i)
  }

  function InsertAt(ks: seq<nat>, k: nat, x: nat): (r: seq<nat>)
    requires k <= |ks|
    ensures |r| == |ks| + 1 && r[k] == x
  {
    ks[..k] + [x] + ks[k..]
  }

  lemma InsertAtIndex(ks: seq<nat>, k: nat, x: nat)
    requires k <= |ks|
    ensures forall i :: 0 <= i < k ==> InsertAt(ks, k, x)[i] == ks[i]
    ensures forall i :: k <= i < |ks| ==> InsertAt(ks, k, x)[i + 1] == ks[i]
  {
  }

  function Drop(ks: seq<nat>, k: nat): (r: seq<nat>)
    requires k < |ks|
    ensures |r| == |ks| - 1
  {
    ks[..k] + ks[k + 1..]
  }

  lemma DropIndex(ks: seq<nat>, k: nat)
    requires k < |ks|
    ensures forall i :: 0 <= i < k ==> Drop(ks, k)[i] == ks[i]
    ensures forall i :: k < i < |ks| ==> Drop(ks, k)[i - 1] == ks[i]
  {
  }

  /** Dropping the head of a list makes its second element the head; dropping any other element
      keeps the head. */
  lemma DropHead(ks: seq<nat>, k: nat)
    requires k < |ks|
    ensures Head(Drop(ks, k)) == if k == 0 then NextIn(ks, 0) else Head(ks)
  {
    DropIndex(ks, k);
  }

  /** The head of a list of distinct elements after `x` is inserted at `k` and the `r`-th element is
      dropped, with `k` past `r`, is the second element when the first was dropped. */
  lemma HeadAfterDrop(ks: seq<nat>, r: nat, k: nat, x: nat)
    requires Distinct(ks) && r < k <= |ks|
    ensures Head(ks) == At(ks[r]) <==> r == 0
    ensures Head(Drop(InsertAt(ks, k, x), r)) == if r == 0 then NextIn(InsertAt(ks, k, x), 0) else Head(ks)
  {
    InsertAtIndex(ks, k, x);
    DropHead(InsertAt(ks, k, x), r);
  }

  /** The list after element `i` absorbs its successor (when `next`) and is then absorbed by its
      predecessor (when `prev`): the elements that the two steps of `merge` unlink. */
  function Joined(ks: seq<nat>, i: nat, next: bool, prev: bool): (r: seq<nat>)
    requires i < |ks| && (next ==> i + 1 < |ks|) && (prev ==> i > 0)
    ensures |r| == |ks| - (if next then 1 else 0) - (if prev then 1 else 0)
  {
    var k1 := if next then Drop(ks, i + 1) else ks;
    if prev then Drop(k1, i) else k1
  }

  /** The links in their own direction after `p` is spliced in right after `n`: `p` takes over `n`'s
      link and `n` links to `p` (the second and fourth assignments of `append_to_list`). */
  function Spliced(own: LinkMap, n: nat, p: nat): LinkMap
  {
    own[p := Get(own, n)][n := At(p)]
  }

  /** The links in the opposite direction after that splice: `n`'s old neighbour, if any, links back
      to `p`, and `p` links back to `n` (the first and third assignments). */
  function SplicedBack(own: LinkMap, other: LinkMap, n: nat, p: nat): LinkMap
  {
    (if Get(own, n).At? then other[Get(own, n).addr := At(p)] else other)[p := At(n)]
  }

  /** The links in one direction after `n` is unlinked: the neighbour that `other` names, if any, links
      past `n` to the neighbour `own` names (one half of `unlink_from_list`). */
  function Bypassed(own: LinkMap, other: LinkMap, n: nat): LinkMap
  {
    if Get(other, n).At? then own[Get(other, n).addr := Get(own, n)] else own
  }

  /** `Joined` keeps the head of the list, except that a run merged at the head starts the list. */
  lemma JoinedHead(ks: seq<nat>, i: nat, next: bool, prev: bool)
    requires i < |ks| && (next ==> i + 1 < |ks|) && (prev ==> i > 0)
    ensures Head(Joined(ks, i, next, prev)) == Head(ks)
  {
    var k1 := if next then Drop(ks, i + 1) else ks;
    if next {
      DropIndex(ks, i + 1);
    }
    if prev {
      DropIndex(k1, i);
    }
  }

  /** Every element of `Joined` is an element of the list. */
  lemma JoinedWithin(ks: seq<nat>, i: nat, next: bool, prev: bool)
    requires i < |ks| && (next ==> i + 1 < |ks|) && (prev ==> i > 0)
    ensures forall k :: 0 <= k < |Joined(ks, i, next, prev)| ==> Joined(ks, i, next, prev)[k] in ks
  {
    var k1 := if next then Drop(ks, i + 1) else ks;
    if next {
      DropIndex(ks, i + 1);
    }
    assert forall k :: 0 <= k < |k1| ==> k1[k] in ks;
    if prev {
      DropIndex(k1, i);
    }
  }

  /** Splicing `p` in after the `j`-th element of a list yields the list with `p` inserted there. */
  lemma SpliceAfter(fw: LinkMap, bw: LinkMap, ks: seq<nat>, j: nat, p: nat)
    requires Linked(fw, bw, ks) && Distinct(ks) && j < |ks| && p !in ks
    ensures Linked(Spliced(fw, ks[j], p), SplicedBack(fw, bw, ks[j], p), InsertAt(ks, j + 1, p))
    ensures Distinct(InsertAt(ks, j + 1, p))
  {
    var r := InsertAt(ks, j + 1, p);
    InsertAtIndex(ks, j + 1, p);
    forall i | 0 <= i < |r|
      ensures LinkedAt(Spliced(fw, ks[j], p), SplicedBack(fw, bw, ks[j], p), r, i)
    {
      SpliceAfterAt(fw, bw, ks, j, p, i);
    }
  }

  lemma SpliceAfterAt(fw: LinkMap, bw: LinkMap, ks: seq<nat>, j: nat, p: nat, i: nat)
    requires Linked(fw, bw, ks) && Distinct(ks) && j < |ks| && p !in ks && i <= |ks|
    ensures LinkedAt(Spliced(fw, ks[j], p), SplicedBack(fw, bw, ks[j], p), InsertAt(ks, j + 1, p), i)
  {
    var n := ks[j];
    var r := InsertAt(ks, j + 1, p);
    InsertAtIndex(ks, j + 1, p);
    assert LinkedAt(fw, bw, ks, j);
    if i < j {
      assert LinkedAt(fw, bw, ks, i);
      assert r[i] == ks[i] && r[i + 1] == ks[i + 1];
      assert ks[i] != p && ks[i] != n;
      assert j + 1 < |ks| ==> ks[i] != ks[j + 1];
      assert i > 0 ==> r[i - 1] == ks[i - 1];
    } else if i == j {
      assert j + 1 < |ks| ==> ks[j] != ks[j + 1];
      assert i > 0 ==> r[i - 1] == ks[i - 1];
    } else if i == j + 1 {
      assert j + 1 < |ks| ==> r[i + 1] == ks[j + 1];
    } else {
      assert LinkedAt(fw, bw, ks, i - 1);
      assert r[i] == ks[i - 1] && ks[i - 1] != p && ks[i - 1] != n;
      assert i + 1 < |r| ==> r[i + 1] == ks[i];
      assert i - 1 > j + 1 ==> r[i - 1] == ks[i - 2] && ks[i - 1] != ks[j + 1];
      assert i - 1 == j + 1 ==> r[i - 1] == p;
    }
  }

  /** Splicing `p` in before the `j`-th element of a list yields the list with `p` inserted there
      (`prepend_to_list` is `append_to_list` with the two directions exchanged). */
  lemma SpliceBefore(fw: LinkMap, bw: LinkMap, ks: seq<nat>, j: nat, p: nat)
    requires Linked(fw, bw, ks) && Distinct(ks) && j < |ks| && p !in ks
    ensures Linked(SplicedBack(bw, fw, ks[j], p), Spliced(bw, ks[j], p), InsertAt(ks, j, p))
    ensures Distinct(InsertAt(ks, j, p))
  {
    var r := InsertAt(ks, j, p);
    InsertAtIndex(ks, j, p);
    forall i | 0 <= i < |r|
      ensures LinkedAt(SplicedBack(bw, fw, ks[j], p), Spliced(bw, ks[j], p), r, i)
    {
      SpliceBeforeAt(fw, bw, ks, j, p, i);
    }
  }

  lemma SpliceBeforeAt(fw: LinkMap, bw: LinkMap, ks: seq<nat>, j: nat, p: nat, i: nat)
    requires Linked(fw, bw, ks) && Distinct(ks) && j < |ks| && p !in ks && i <= |ks|
    ensures LinkedAt(SplicedBack(bw, fw, ks[j], p), Spliced(bw, ks[j], p), InsertAt(ks, j, p), i)
  {
    InsertAtIndex(ks, j, p);
    assert LinkedAt(fw, bw, ks, j);
    if i + 1 < j {
      SpliceBeforeBelow(fw, bw, ks, j, p, i);
    } else if i + 1 == j {
      SpliceBeforeLeft(fw, bw, ks, j, p, i);
    } else if i == j {
      SpliceBeforeSelf(fw, bw, ks, j, p);
    } else if i == j + 1 {
      SpliceBeforeRight(fw, bw, ks, j, p);
    } else {
      SpliceBeforeAbove(fw, bw, ks, j, p, i);
    }
  }

  lemma SpliceBeforeBelow(fw: LinkMap, bw: LinkMap, ks: seq<nat>, j: nat, p: nat, i: nat)
    requires Linked(fw, bw, ks) && Distinct(ks) && j < |ks| && p !in ks && i + 1 < j
    ensures LinkedAt(SplicedBack(bw, fw, ks[j], p), Spliced(bw, ks[j], p), InsertAt(ks, j, p), i)
  {
    var r := InsertAt(ks, j, p);
    InsertAtIndex(ks, j, p);
    assert LinkedAt(fw, bw, ks, j) && LinkedAt(fw, bw, ks, i);
    assert r[i] == ks[i] && r[i + 1] == ks[i + 1];
    assert ks[i] != p && ks[i] != ks[j] && ks[i] != ks[j - 1];
    assert i > 0 ==> r[i - 1] == ks[i - 1];
  }

  lemma SpliceBeforeLeft(fw: LinkMap, bw: LinkMap, ks: seq<nat>, j: nat, p: nat, i: nat)
    requires Linked(fw, bw, ks) && Distinct(ks) && j < |ks| && p !in ks && i + 1 == j
    ensures LinkedAt(SplicedBack(bw, fw, ks[j], p), Spliced(bw, ks[j], p), InsertAt(ks, j, p), i)
  {
    var r := InsertAt(ks, j, p);
    InsertAtIndex(ks, j, p);
    assert LinkedAt(fw, bw, ks, j) && LinkedAt(fw, bw, ks, i);
    assert r[i] == ks[i] && ks[i] != ks[j] && ks[i] != p;
    assert i > 0 ==> r[i - 1] == ks[i - 1];
  }

  lemma SpliceBeforeSelf(fw: LinkMap, bw: LinkMap, ks: seq<nat>, j: nat, p: nat)
    requires Linked(fw, bw, ks) && Distinct(ks) && j < |ks| && p !in ks
    ensures LinkedAt(SplicedBack(bw, fw, ks[j], p), Spliced(bw, ks[j], p), InsertAt(ks, j, p), j)
  {
    var r := InsertAt(ks, j, p);
    InsertAtIndex(ks, j, p);
    assert LinkedAt(fw, bw, ks, j);
    assert r[j + 1] == ks[j];
    assert j > 0 ==> r[j - 1] == ks[j - 1] && ks[j - 1] != ks[j];
  }

  lemma SpliceBeforeRight(fw: LinkMap, bw: LinkMap, ks: seq<nat>, j: nat, p: nat)
    requires Linked(fw, bw, ks) && Distinct(ks) && j < |ks| && p !in ks
    ensures LinkedAt(SplicedBack(bw, fw, ks[j], p), Spliced(bw, ks[j], p), InsertAt(ks, j, p), j + 1)
  {
    var r := InsertAt(ks, j, p);
    InsertAtIndex(ks, j, p);
    assert LinkedAt(fw, bw, ks, j);
    assert r[j + 1] == ks[j] && r[j] == p;
    assert j + 2 < |r| ==> r[j + 2] == ks[j + 1];
    assert j > 0 ==> ks[j - 1] != ks[j];
  }

  lemma SpliceBeforeAbove(fw: LinkMap, bw: LinkMap, ks: seq<nat>, j: nat, p: nat, i: nat)
    requires Linked(fw, bw, ks) && Distinct(ks) && j + 1 < i <= |ks| && p !in ks
    ensures LinkedAt(SplicedBack(bw, fw, ks[j], p), Spliced(bw, ks[j], p), InsertAt(ks, j, p), i)
  {
    var r := InsertAt(ks, j, p);
    InsertAtIndex(ks, j, p);
    assert LinkedAt(fw, bw, ks, j) && LinkedAt(fw, bw, ks, i - 1);
    assert r[i] == ks[i - 1] && ks[i - 1] != p && ks[i - 1] != ks[j];
    assert j > 0 ==> ks[i - 1] != ks[j - 1];
    assert i + 1 < |r| ==> r[i + 1] == ks[i];
    assert r[i - 1] == ks[i - 2];
  }

  /** Unlinking the `j`-th element of a list yields the list without it. */
  lemma Bypass(fw: LinkMap, bw: LinkMap, ks: seq<nat>, j: nat)
    requires Linked(fw, bw, ks) && Distinct(ks) && j < |ks|
    ensures var fw' := Bypassed(fw, bw, ks[j]);
            Linked(fw', Bypassed(bw, fw', ks[j]), Drop(ks, j))
    ensures Distinct(Drop(ks, j))
  {
    var r := Drop(ks, j);
    DropIndex(ks, j);
    var fw' := Bypassed(fw, bw, ks[j]);
    forall i | 0 <= i < |r|
      ensures LinkedAt(fw', Bypassed(bw, fw', ks[j]), r, i)
    {
      BypassAt(fw, bw, ks, j, i);
    }
  }

  lemma BypassAt(fw: LinkMap, bw: LinkMap, ks: seq<nat>, j: nat, i: nat)
    requires Linked(fw, bw, ks) && Distinct(ks) && j < |ks| && i + 1 < |ks|
    ensures var fw' := Bypassed(fw, bw, ks[j]);
            LinkedAt(fw', Bypassed(bw, fw', ks[j]), Drop(ks, j), i)
  {
    var n := ks[j];
    var r := Drop(ks, j);
    DropIndex(ks, j);
    var fw' := Bypassed(fw, bw, n);
    assert LinkedAt(fw, bw, ks, j);
    assert Get(fw', n) == Get(fw, n);
    if i + 1 < j {
      assert LinkedAt(fw, bw, ks, i);
      assert r[i] == ks[i] && r[i + 1] == ks[i + 1];
      assert ks[i] != n && ks[i] != ks[j - 1];
      assert j + 1 < |ks| ==> ks[i] != ks[j + 1];
      assert i > 0 ==> r[i - 1] == ks[i - 1];
    } else if i + 1 == j {
      assert LinkedAt(fw, bw, ks, i);
      assert r[i] == ks[j - 1] && ks[j - 1] != n;
      assert j + 1 < |ks| ==> r[i + 1] == ks[j + 1] && ks[j - 1] != ks[j + 1];
      assert i > 0 ==> r[i - 1] == ks[i - 1];
    } else if i == j {
      assert LinkedAt(fw, bw, ks, j + 1);
      assert r[i] == ks[j + 1] && ks[j + 1] != n;
      assert j > 0 ==> ks[j + 1] != ks[j - 1] && r[i - 1] == ks[j - 1];
      assert i + 1 < |r| ==> r[i + 1] == ks[j + 2];
    } else {
      assert LinkedAt(fw, bw, ks, i + 1);
      assert r[i] == ks[i + 1] && ks[i + 1] != n;
      assert j > 0 ==> ks[i + 1] != ks[j - 1];
      assert j + 1 < |ks| ==> ks[i + 1] != ks[j + 1];
      assert i + 1 < |r| ==> r[i + 1] == ks[i + 2];
      assert r[i - 1] == ks[i];
    }
  }

  /** Writing links at an address outside the list leaves the list intact. */
  lemma WriteOutside(fw: LinkMap, bw: LinkMap, ks: seq<nat>, a: nat, x: Ptr, y: Ptr)
    requires Linked(fw, bw, ks) && a !in ks
    ensures Linked(fw[a := x], bw, ks) && Linked(fw, bw[a := y], ks) && Linked(fw[a := x], bw[a := y], ks)
  {
    var fw', bw' := fw[a := x], bw[a := y];
    forall i | 0 <= i < |ks|
      ensures LinkedAt(fw', bw, ks, i) && LinkedAt(fw, bw', ks, i) && LinkedAt(fw', bw', ks, i)
    {
      assert LinkedAt(fw, bw, ks, i);
    }
  }

  /** The links of a list are those of its `i`-th element. */
  lemma LinksOf(fw: LinkMap, bw: LinkMap, ks: seq<nat>, i: nat)
    requires Linked(fw, bw, ks) && i < |ks|
    ensures ks[i] in fw && fw[ks[i]] == NextIn(ks, i)
    ensures ks[i] in bw && bw[ks[i]] == PrevIn(ks, i)
  {
    assert LinkedAt(fw, bw, ks, i);
  }
}
