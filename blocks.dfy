/**
 * Fixed-size blocks of bytes: cutting a buffer into consecutive records of `p` bytes, as
 * successive `read_exact` calls of one size do, and laying such records end to end.
 */
module Blocks {
  import opened BigEndian

  /** The bytes `n` records of `p` bytes take, counted one record at a time. */
  function Span(n: nat, p: nat): nat
  {
    if n == 0 then 0 else Span(n - 1, p) + p
  }

  /** Counting record by record gives the product of count and size. */
  lemma {:induction false} SpanIsProduct(n: nat, p: nat)
    ensures Span(n, p) == n * p
  {
    if n > 0 {
      SpanIsProduct(n - 1, p);
      assert n * p == (n - 1) * p + p;
    }
  }

  /** Fewer records never take more bytes. */
  lemma {:induction false} SpanMonotone(k: nat, n: nat, p: nat)
    requires k <= n
    ensures Span(k, p) <= Span(n, p)
  {
    if k < n {
      SpanMonotone(k, n - 1, p);
    }
  }

  /** The blocks laid end to end. */
  function Concat(blocks: seq<seq<Byte>>): (s: seq<Byte>)
  {
    if blocks == [] then [] else blocks[0] + Concat(blocks[1..])
  }

  /**
   * The first `n` consecutive blocks of `p` bytes of `s`: each block is read where the
   * previous one stopped and pushed after it.
   */
  function Chunks(s: seq<Byte>, p: nat, n: nat): (r: seq<seq<Byte>>)
    requires Span(n, p) <= |s|
    ensures |r| == n
    ensures forall k {:trigger r[k]} :: 0 <= k < n ==>
      Span(k, p) + p <= Span(n, p) && r[k] == s[Span(k, p) .. Span(k, p) + p]
  {
    if n == 0 then []
    else
      var front := Chunks(s, p, n - 1);
      forall k | 0 <= k < n - 1
        ensures Span(k, p) + p <= Span(n, p)
      {
        SpanMonotone(k + 1, n - 1, p);
      }
      front + [s[Span(n - 1, p) .. Span(n, p)]]
  }

  /** Blocks read from a buffer do not depend on the bytes after the last one. */
  lemma ChunksAppend(s: seq<Byte>, t: seq<Byte>, p: nat, n: nat)
    requires Span(n, p) <= |s|
    ensures Chunks(s + t, p, n) == Chunks(s, p, n)
  {
    var longer, shorter := Chunks(s + t, p, n), Chunks(s, p, n);
    forall k | 0 <= k < n
      ensures longer[k] == shorter[k]
    {
      ChunkAppendAt(s, t, p, n, k);
    }
  }

  lemma ChunkAppendAt(s: seq<Byte>, t: seq<Byte>, p: nat, n: nat, k: nat)
    requires Span(n, p) <= |s| && k < n
    ensures Chunks(s + t, p, n)[k] == Chunks(s, p, n)[k]
  {
    var block := Chunks(s, p, n)[k];
    SliceOfAppend(s, t, Span(k, p), Span(k, p) + p);
  }

  lemma SliceOfAppend(s: seq<Byte>, t: seq<Byte>, a: nat, b: nat)
    requires a <= b <= |s|
    ensures (s + t)[a..b] == s[a..b]
  {
  }

  lemma SliceAfterPrefix(s: seq<Byte>, t: seq<Byte>, a: nat, b: nat)
    requires a <= b <= |t|
    ensures (s + t)[|s| + a .. |s| + b] == t[a..b]
  {
  }

  /** Blocks of one size `p` lie end to end: block `k` starts at offset `Span(k, p)`. */
  lemma ConcatUniform(blocks: seq<seq<Byte>>, p: nat)
    requires forall k :: 0 <= k < |blocks| ==> |blocks[k]| == p
    ensures |Concat(blocks)| == Span(|blocks|, p)
    ensures forall k {:trigger blocks[k]} :: 0 <= k < |blocks| ==>
      Span(k, p) + p <= |Concat(blocks)| && Concat(blocks)[Span(k, p) .. Span(k, p) + p] == blocks[k]
  {
    ConcatLength(blocks, p);
    forall k | 0 <= k < |blocks|
      ensures Span(k, p) + p <= |Concat(blocks)| && Concat(blocks)[Span(k, p) .. Span(k, p) + p] == blocks[k]
    {
      ConcatBlock(blocks, p, k);
    }
  }

  /** Blocks of one size `p` laid end to end take `Span(n, p)` bytes. */
  lemma {:induction false} ConcatLength(blocks: seq<seq<Byte>>, p: nat)
    requires forall k :: 0 <= k < |blocks| ==> |blocks[k]| == p
    ensures |Concat(blocks)| == Span(|blocks|, p)
  {
    if blocks != [] {
      ConcatLength(blocks[1..], p);
      SpanFront(|blocks|, p);
    }
  }

  /** Block `k` of blocks of one size `p` laid end to end starts at offset `Span(k, p)`. */
  lemma {:induction false} ConcatBlock(blocks: seq<seq<Byte>>, p: nat, k: nat)
    requires forall j :: 0 <= j < |blocks| ==> |blocks[j]| == p
    requires k < |blocks|
    ensures Span(k, p) + p <= |Concat(blocks)|
    ensures Concat(blocks)[Span(k, p) .. Span(k, p) + p] == blocks[k]
  {
    var rest := blocks[1..];
    assert Concat(blocks) == blocks[0] + Concat(rest);
    if k == 0 {
      SliceOfAppend(blocks[0], Concat(rest), 0, p);
    } else {
      ConcatBlock(rest, p, k - 1);
      assert rest[k - 1] == blocks[k];
      BlockAfterFirst(blocks, p, k);
    }
  }

  /** Block `k` of the rest lies one block further on once the first block is put in front. */
  lemma BlockAfterFirst(blocks: seq<seq<Byte>>, p: nat, k: nat)
    requires 0 < k < |blocks| && |blocks[0]| == p
    requires Span(k - 1, p) + p <= |Concat(blocks[1..])|
    requires Concat(blocks[1..])[Span(k - 1, p) .. Span(k - 1, p) + p] == blocks[k]
    ensures Span(k, p) + p <= |Concat(blocks)|
    ensures Concat(blocks)[Span(k, p) .. Span(k, p) + p] == blocks[k]
  {
    SpanFront(k, p);
    SliceAfterPrefix(blocks[0], Concat(blocks[1..]), Span(k - 1, p), Span(k - 1, p) + p);
  }

  /** The first record's bytes followed by the rest's. */
  lemma {:induction false} SpanFront(n: nat, p: nat)
    requires n > 0
    ensures Span(n, p) == p + Span(n - 1, p)
  {
    if n > 1 {
      SpanFront(n - 1, p);
    }
  }

  /** Cutting laid-out blocks of size `p` gives the blocks back, whatever follows them. */
  lemma ChunksOfConcat(blocks: seq<seq<Byte>>, t: seq<Byte>, p: nat)
    requires forall k :: 0 <= k < |blocks| ==> |blocks[k]| == p
    ensures Span(|blocks|, p) <= |Concat(blocks) + t|
    ensures Chunks(Concat(blocks) + t, p, |blocks|) == blocks
  {
    ConcatUniform(blocks, p);
    ChunksAppend(Concat(blocks), t, p, |blocks|);
  }

  /** Laying the blocks of a buffer end to end again gives back the bytes they were cut from. */
  lemma {:induction false} ConcatChunks(s: seq<Byte>, p: nat, n: nat)
    requires Span(n, p) <= |s|
    ensures Concat(Chunks(s, p, n)) == s[..Span(n, p)]
  {
    if n > 0 {
      var front := Chunks(s, p, n - 1);
      var last := s[Span(n - 1, p) .. Span(n, p)];
      ConcatChunks(s, p, n - 1);
      ConcatSnoc(front, last);
      assert s[..Span(n, p)] == s[..Span(n - 1, p)] + last;
    }
  }

  /** Laying out one block more appends its bytes. */
  lemma {:induction false} ConcatSnoc(blocks: seq<seq<Byte>>, b: seq<Byte>)
    ensures Concat(blocks + [b]) == Concat(blocks) + b
  {
    if blocks != [] {
      ConcatSnoc(blocks[1..], b);
      assert (blocks + [b])[1..] == blocks[1..] + [b];
    }
  }
}
