/**
 * Pagination: splitting the record list into pages of `size` records.
 * `chunk` takes up to `size` elements at a time from one iterator and
 * stops at the first empty take.
 */
module Misc {

  /** The page size used when none is given. */
  const DEFAULT_PAGE_SIZE: nat := 10

  function Min(a: int, b: int): int {
    if a <= b then a else b
  }

  /** Consecutive pieces of `xs`, each `size` long except possibly the last. */
  function Chunk<T>(xs: seq<T>, size: nat := DEFAULT_PAGE_SIZE): (pages: seq<seq<T>>)
    ensures forall i | 0 <= i < |pages| :: 0 < |pages[i]| <= size
    decreases |xs|
  {
    var page := xs[..Min(size, |xs|)];
    if page == [] then [] else [page] + Chunk(xs[|page|..], size)
  }

  /** The elements of the pages, one page after another. */
  function Flatten<T>(pages: seq<seq<T>>): seq<T> {
    if pages == [] then [] else pages[0] + Flatten(pages[1..])
  }

  /** Joining the pages gives back the list, in order. */
  lemma {:induction false} ChunkFlatten<T>(xs: seq<T>, size: nat)
    requires size >= 1
    ensures Flatten(Chunk(xs, size)) == xs
    decreases |xs|
  {
    if xs != [] {
      var k := Min(size, |xs|);
      ChunkFlatten(xs[k..], size);
      assert xs == xs[..k] + xs[k..];
    }
  }

  /** Every page but the last holds exactly `size` elements. */
  lemma {:induction false} ChunkFullPages<T>(xs: seq<T>, size: nat)
    ensures forall i | 0 <= i < |Chunk(xs, size)| - 1 :: |Chunk(xs, size)[i]| == size
    decreases |xs|
  {
    var pages := Chunk(xs, size);
    if pages != [] {
      var k := Min(size, |xs|);
      ChunkFullPages(xs[k..], size);
      assert pages == [xs[..k]] + Chunk(xs[k..], size);
      if |pages| > 1 {
        assert xs[k..] != [];
        assert k == size;
      }
    }
  }

  /** `Chunk` takes one page off the front and recurses on what is left. */
  lemma ChunkUnfold<T>(xs: seq<T>, size: nat)
    requires size >= 1 && xs != []
    ensures Chunk(xs, size) == [xs[..Min(size, |xs|)]] + Chunk(xs[Min(size, |xs|)..], size)
  {
  }

  /** `i * size`, unfolded one page at a time. */
  function Offset(i: nat, size: nat): nat {
    if i == 0 then 0 else Offset(i - 1, size) + size
  }

  lemma {:induction false} OffsetIsProduct(i: nat, size: nat)
    ensures Offset(i, size) == i * size
  {
    if i > 0 {
      OffsetIsProduct(i - 1, size);
      MulSucc(i - 1, size);
    }
  }

  /** Page `i` starts at offset `i * size` and runs for `size` elements or to the end. */
  lemma {:induction false} ChunkAtOffset<T>(xs: seq<T>, size: nat, i: nat)
    requires i < |Chunk(xs, size)|
    ensures Offset(i, size) < |xs|
    ensures Chunk(xs, size)[i] == xs[Offset(i, size) .. Min(Offset(i, size) + size, |xs|)]
    decreases |xs|
  {
    assert size >= 1 && xs != [];
    ChunkUnfold(xs, size);
    var k := Min(size, |xs|);
    var rest := xs[k..];
    if i > 0 {
      assert rest != [] && k == size;
      ChunkAtOffset(rest, size, i - 1);
      var lo := Offset(i - 1, size);
      var hi := Min(lo + size, |rest|);
      assert Chunk(xs, size)[i] == Chunk(rest, size)[i - 1] == rest[lo..hi];
      SliceOfSuffix(xs, size, lo, hi);
    }
  }

  /** Page `i` is `xs[i * size .. min((i + 1) * size, |xs|)]`. */
  lemma ChunkAt<T>(xs: seq<T>, size: nat, i: nat)
    requires i < |Chunk(xs, size)|
    ensures i * size < |xs|
    ensures Chunk(xs, size)[i] == xs[i * size .. Min((i + 1) * size, |xs|)]
  {
    ChunkAtOffset(xs, size, i);
    OffsetIsProduct(i, size);
    MulSucc(i, size);
  }

  lemma SliceOfSuffix<T>(xs: seq<T>, k: nat, lo: nat, hi: nat)
    requires lo <= hi && k + hi <= |xs|
    ensures xs[k..][lo..hi] == xs[k + lo .. k + hi]
  {
  }

  lemma MulSucc(i: nat, size: nat)
    ensures (i + 1) * size == i * size + size
  {
  }

  /**
   * The number of pages is the ceiling of `|xs| / size`: the first
   * `|pages| - 1` pages do not exhaust the list, `|pages|` pages cover it.
   */
  lemma {:induction false} ChunkCount<T>(xs: seq<T>, size: nat)
    requires size >= 1
    ensures |Chunk(xs, size)| == 0 <==> xs == []
    ensures xs != [] ==> (|Chunk(xs, size)| - 1) * size < |xs| <= |Chunk(xs, size)| * size
    ensures |Chunk(xs, size)| == (|xs| + size - 1) / size
    decreases |xs|
  {
    if xs != [] {
      ChunkUnfold(xs, size);
      var k := Min(size, |xs|);
      var rest := xs[k..];
      ChunkCount(rest, size);
      var m := |Chunk(rest, size)|;
      assert |Chunk(xs, size)| == m + 1;
      if rest == [] {
        assert m == 0 && |xs| <= size;
        DivOne(|xs| + size - 1, size);
      } else {
        assert k == size && |rest| == |xs| - size && m >= 1;
        var below, above := (m - 1) * size, m * size;
        assert below < |rest| <= above;
        MulSucc(m - 1, size);
        MulSucc(m, size);
        assert below + size == above;
        assert (m + 1) * size == above + size;
        DivShift(|rest| + size - 1, size);
      }
    }
  }

  lemma DivOne(a: nat, size: nat)
    requires size >= 1 && size <= a < 2 * size
    ensures a / size == 1
  {
  }

  lemma DivShift(a: nat, size: nat)
    requires size >= 1
    ensures (a + size) / size == a / size + 1
  {
    var q, r := a / size, a % size;
    MulSucc(q, size);
    DivUnique(a + size, size, q + 1, r);
  }

  /** Division is determined by the quotient-remainder decomposition. */
  lemma DivUnique(n: nat, d: nat, q: nat, r: nat)
    requires d >= 1 && n == q * d + r && r < d
    ensures n / d == q
  {
    var q', r' := n / d, n % d;
    if q' > q {
      MulMono(q + 1, q', d);
      MulSucc(q, d);
    } else if q' < q {
      MulMono(q' + 1, q, d);
      MulSucc(q', d);
    }
  }

  lemma MulMono(a: nat, b: nat, d: nat)
    requires a <= b
    ensures a * d <= b * d
  {
  }

  /** An empty list has no pages, and a page size of 0 yields no pages whatever the list. */
  lemma ChunkDegenerate<T>(xs: seq<T>)
    ensures Chunk<T>([]) == []
    ensures Chunk(xs, 0) == []
  {
  }
}
