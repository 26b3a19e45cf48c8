/**
 * annotateMSA, gi batching: `[gi[x:x + 200] for x in range(0, len(gi), 200)]`.
 */
module Batching {

  /** Gi numbers sent to one elink request. */
  const BlockSize: nat := 200

  function Min(a: int, b: int): int {
    if a <= b then a else b
  }

  /** Number of blocks: ceil(n / size). */
  function NumBlocks(n: nat, size: nat): nat
    requires size > 0
  {
    (n + size - 1) / size
  }

  /** Block `x` starts inside the list. */
  lemma BlockStart(n: nat, size: nat, x: nat)
    requires size > 0 && x < NumBlocks(n, size)
    ensures x * size < n
  {
    var q := NumBlocks(n, size);
    assert q * size <= n + size - 1;
    assert x * size <= (q - 1) * size by {
      MulMono(x, q - 1, size);
    }
  }

  lemma MulMono(a: nat, b: nat, c: nat)
    requires a <= b
    ensures a * c <= b * c
  {
  }

  /** The blocks cover the list: the last block ends at or after its end. */
  lemma BlocksCover(n: nat, size: nat)
    requires size > 0
    ensures NumBlocks(n, size) * size >= n
    ensures n > 0 ==> (NumBlocks(n, size) - 1) * size < n
  {
    var q := NumBlocks(n, size);
    var r := (n + size - 1) % size;
    assert q * size + r == n + size - 1;
    if n > 0 {
      BlockStart(n, size, q - 1);
    }
  }

  /** The slices `s[x:x + size]` for `x` in `range(0, len(s), size)`. */
  function Blocks<T>(s: seq<T>, size: nat): (bs: seq<seq<T>>)
    requires size > 0
    ensures |bs| == NumBlocks(|s|, size)
  {
    seq(NumBlocks(|s|, size), x requires 0 <= x < NumBlocks(|s|, size) =>
      BlockStart(|s|, size, x);
      s[x * size..Min((x + 1) * size, |s|)])
  }

  /** The blocks joined end to end. */
  function Flatten<T>(ss: seq<seq<T>>): seq<T>
    decreases |ss|
  {
    if |ss| == 0 then [] else Flatten(ss[..|ss| - 1]) + ss[|ss| - 1]
  }

  /** Every block is non-empty and at most `size` long; every block but the last has exactly `size`. */
  lemma BlockSizes<T>(s: seq<T>, size: nat, x: nat)
    requires size > 0 && x < |Blocks(s, size)|
    ensures 0 < |Blocks(s, size)[x]| <= size
    ensures x < |Blocks(s, size)| - 1 ==> |Blocks(s, size)[x]| == size
    ensures x == |Blocks(s, size)| - 1 ==> |Blocks(s, size)[x]| == |s| - x * size
  {
    BlockStart(|s|, size, x);
    BlocksCover(|s|, size);
    if x < |Blocks(s, size)| - 1 {
      BlockStart(|s|, size, x + 1);
    }
  }

  /** The first `m` blocks joined give the first `min(m * size, |s|)` elements. */
  lemma {:induction false} FlattenPrefix<T>(s: seq<T>, size: nat, m: nat)
    requires size > 0 && m <= |Blocks(s, size)|
    ensures Flatten(Blocks(s, size)[..m]) == s[..Min(m * size, |s|)]
  {
    var bs := Blocks(s, size);
    if m == 0 {
    } else {
      FlattenPrefix(s, size, m - 1);
      BlockStart(|s|, size, m - 1);
      assert bs[..m][..m - 1] == bs[..m - 1];
      assert Min((m - 1) * size, |s|) == (m - 1) * size;
      assert bs[m - 1] == s[(m - 1) * size..Min(m * size, |s|)];
      assert s[..Min(m * size, |s|)] == s[..(m - 1) * size] + s[(m - 1) * size..Min(m * size, |s|)];
    }
  }

  /** Concatenating the blocks in order gives back the list: nothing dropped, repeated or moved. */
  lemma FlattenBlocks<T>(s: seq<T>, size: nat)
    requires size > 0
    ensures Flatten(Blocks(s, size)) == s
  {
    var bs := Blocks(s, size);
    FlattenPrefix(s, size, |bs|);
    BlocksCover(|s|, size);
    assert bs[..|bs|] == bs;
  }

  /** The blocks before block `x` hold exactly `x * size` elements. */
  lemma FlattenPrefixLength<T>(s: seq<T>, size: nat, x: nat)
    requires size > 0 && x < |Blocks(s, size)|
    ensures |Flatten(Blocks(s, size)[..x])| == x * size
  {
    FlattenPrefix(s, size, x);
    BlockStart(|s|, size, x);
  }

  /** Element `j` of block `x` is element `x * size + j` of the list. */
  lemma BlockElement<T>(s: seq<T>, size: nat, x: nat, j: nat)
    requires size > 0 && x < |Blocks(s, size)| && j < |Blocks(s, size)[x]|
    ensures x * size + j < |s| && Blocks(s, size)[x][j] == s[x * size + j]
  {
    BlockStart(|s|, size, x);
  }

  /** No blocks for an empty list, and at least one otherwise. */
  lemma NoBlocksIffEmpty<T>(s: seq<T>, size: nat)
    requires size > 0
    ensures Blocks(s, size) == [] <==> s == []
  {
    if s != [] {
      assert NumBlocks(|s|, size) >= 1;
    }
  }

  /** 450 gi numbers make three requests, of 200, 200 and 50. */
  lemma Example450<T>(s: seq<T>)
    requires |s| == 450
    ensures |Blocks(s, BlockSize)| == 3
    ensures |Blocks(s, BlockSize)[0]| == 200 && |Blocks(s, BlockSize)[1]| == 200
    ensures |Blocks(s, BlockSize)[2]| == 50
  {
  }
}
