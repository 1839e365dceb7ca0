/** Sizes, alignment and the packed size word of a block header.

    The constants are those of an LP64 target where `alignof(std::max_align_t)`
    is 16: a header holds two pointers and a `size_t`, padded to its 16-byte
    alignment, and a free node adds two more pointers. The block invariants
    rest on `ConstantFacts` alone: `H` and `N` are multiples of `A`, `N > H`
    and `A` is even. `AlignedEven`, `MaxRequest`, the as-written footprint
    lemmas (`FootprintAsWrittenTooSmall`'s second clause and
    `FootprintAsWrittenWraps`) and the odd-arena example use the concrete
    values. */
module Layout {

  /** `alignof(node)`, which is `alignof(std::max_align_t)` through the header's first field. */
  const A: nat := 16

  /** `sizeof(node::header)`: `m_next`, `m_prev`, `m_size`, padded to `A`. */
  const H: nat := 32

  /** `sizeof(node)`: the header followed by `m_next_free` and `m_prev_free`. */
  const N: nat := 48

  /** The largest `std::size_t`, and the modulus of its arithmetic. */
  const SizeMax: nat := 0xFFFF_FFFF_FFFF_FFFF
  const W: nat := SizeMax + 1

  /** The largest request whose footprint arithmetic does not wrap around. */
  const MaxRequest: nat := SizeMax - H - (A - 1)

  lemma ConstantFacts()
    ensures H % A == 0 && N % A == 0 && H < N && A % 2 == 0
  {
  }

  lemma EvenSum(a: nat, b: nat, c: nat)
    requires a % 2 == 0 && b % 2 == 0 && c % 2 == 0
    ensures (a + b + c) % 2 == 0
  {
  }

  /** The sum of two multiples of the alignment is one. */
  lemma AlignedSum(a: nat, b: nat)
    requires a % A == 0 && b % A == 0
    ensures (a + b) % A == 0
  {
  }

  /** A multiple of the alignment is even. */
  lemma AlignedEven(x: nat)
    requires x % A == 0
    ensures x % 2 == 0
  {
    var q := x / A;
    assert x == 2 * (8 * q);
  }

  /** `node::alignment(size)`: the padding that rounds `size` up to a multiple of `A`. */
  function Alignment(size: nat): (pad: nat)
    ensures pad < A
    ensures (size + pad) % A == 0
  {
    (size + A - 1) / A * A - size
  }

  /** Any padding that reaches a multiple of `A` is at least `Alignment`: the rounding is the least one. */
  lemma AlignmentIsLeast(size: nat, pad: nat)
    requires (size + pad) % A == 0
    ensures Alignment(size) <= pad
  {
  }

  /** `node::alignment(size)` in `std::size_t` arithmetic, where `size + A - 1` and the final
      subtraction wrap modulo `W`; it agrees with `Alignment` whenever the sum does not wrap. */
  function AlignmentAsWritten(size: nat): (pad: nat)
    requires size <= SizeMax
    ensures pad <= SizeMax
    ensures size + A - 1 <= SizeMax ==> pad == Alignment(size)
  {
    var sum := Wrap(size + A - 1);
    var up := sum / A * A;
    if up >= size then up - size else up + W - size
  }

  /** A sum of two `std::size_t` values reduced modulo `W`. */
  function Wrap(x: nat): (r: nat)
    requires x < 2 * W
    ensures r <= SizeMax && r % W == x % W
  {
    if x <= SizeMax then x else x - W
  }

  /** The block footprint `list::allocate` computes for a request, in `std::size_t` arithmetic as
      the source writes it: the request plus the header, plus the padding to `A`. For requests up to
      `MaxRequest` it is the request and header rounded up to `A`. */
  function FootprintAsWritten(request: nat): (fp: nat)
    requires request <= SizeMax
    ensures fp <= SizeMax
    ensures request <= MaxRequest ==> fp % A == 0 && request + H <= fp < request + H + A
  {
    var size := Wrap(request + H);
    Wrap(size + AlignmentAsWritten(size))
  }

  /** Within the requests that do not wrap, the as-written footprint is too small to hold a free node
      exactly for the requests that fit in `N - H - A` bytes; with these constants that is the empty
      request alone. A block of that footprint, once freed, has its free-list links written past its
      own end. */
  lemma FootprintAsWrittenTooSmall(request: nat)
    requires request <= MaxRequest
    ensures FootprintAsWritten(request) < N <==> request + H + A <= N
    ensures FootprintAsWritten(request) < N <==> request == 0
  {
  }

  /** Past `MaxRequest` the as-written footprint wraps around to at most a header's size, far less
      than the request: a block of that footprint cannot hold the request, and one of zero bytes is
      split off at the chosen block's own address. */
  lemma FootprintAsWrittenWraps(request: nat)
    requires MaxRequest < request <= SizeMax
    ensures FootprintAsWritten(request) <= H && FootprintAsWritten(request) < request
  {
    var size := Wrap(request + H);
    if request + H < W {
      assert Wrap(size + A - 1) == size + A - 1 - W < A;
      assert AlignmentAsWritten(size) == W - size;
    } else {
      assert size == request + H - W && size < H;
      assert size + Alignment(size) <= H;
    }
  }

  /** The footprint used by the model, in exact arithmetic: the least multiple of `A` that holds the
      header, the request and, once the block is freed, a whole node. It exceeds every `std::size_t`
      exactly when the request is past `MaxRequest`, so no block of an arena can then be chosen. */
  function Footprint(request: nat): (fp: nat)
    ensures fp % A == 0
    ensures fp >= N && fp >= request + H
    ensures fp == N || fp < request + H + A
    ensures fp <= SizeMax <==> request <= MaxRequest
  {
    var size := request + H;
    var fp := size + Alignment(size);
    if fp < N then N else fp
  }

  /** Every non-empty request that does not wrap gets the same footprint from the source's arithmetic
      as from the corrected one: the two differ only for the empty request and past `MaxRequest`. */
  lemma FootprintAgrees(request: nat)
    requires 0 < request <= MaxRequest
    ensures FootprintAsWritten(request) == Footprint(request)
  {
  }

  /** `header::size()`: the packed word with its low (allocated) bit masked off. */
  function Size(word: nat): nat
  {
    word - word % 2
  }

  /** `header::is_free()`: the low bit is clear. */
  predicate IsFree(word: nat)
  {
    word % 2 == 0
  }

  /** `set_free()`: `m_size &= ~1`. */
  function Freed(word: nat): nat
  {
    word - word % 2
  }

  /** `set_allocated()`: `m_size |= 1`. */
  function Taken(word: nat): nat
  {
    word - word % 2 + 1
  }

  /** The packed size word: masking keeps an even size within one of the word, `set_free` and
      `set_allocated` set the flag and keep the size, and a size with a clear low bit is its own word
      when free. The facts are kept out of the functions' contracts so that the modular arithmetic
      enters a proof only where this lemma is invoked. */
  lemma PackedWord(word: nat)
    ensures Size(word) % 2 == 0 && Size(word) <= word < Size(word) + 2
    ensures IsFree(Freed(word)) && Size(Freed(word)) == Size(word)
    ensures !IsFree(Taken(word)) && Size(Taken(word)) == Size(word)
    ensures IsFree(word) <==> Size(word) == word
  {
  }

  /** What is left of a free word when an aligned footprint is cut from it is a free word again. */
  lemma FreedRest(word: nat, fp: nat)
    requires IsFree(word) && fp % A == 0 && fp <= word
    ensures IsFree(word - fp) && Freed(word - fp) == word - fp
  {
    AlignedEven(fp);
    var a, b := word / 2, fp / 2;
    assert word - fp == 2 * (a - b);
  }

  /** `header::data()`: the payload starts right after the header. */
  function Data(header: nat): (payload: nat)
    ensures header % A == 0 ==> payload % A == 0
  {
    header + H
  }

  /** `header::from_data()`: the header sits `H` bytes before the payload. */
  function FromData(payload: nat): (header: nat)
    requires payload >= H
    ensures Data(header) == payload
  {
    payload - H
  }

  /** `header::data_size()`: the payload capacity of a block. */
  function DataSize(word: nat): (capacity: nat)
    requires Size(word) >= H
    ensures capacity + H <= word
  {
    Size(word) - H
  }
}
