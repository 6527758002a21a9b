/** `chunk_text` (app.py and its copy in send_to_gpt.py): the slices
    `text[i:i + size]` for `i` in `range(0, len(text), size)`. */
module Chunker {
  import opened Strings

  /** `len(range(0, n, size))` for a positive step: the ceiling of `n / size`. */
  function RangeCount(n: nat, size: nat): nat
    requires size > 0
  {
    (n + size - 1) / size
  }

  /** The list comprehension of `chunk_text`: no chunks exactly for the empty
      text, and none longer than `size`. A chunk size of zero or less is not
      modelled. */
  function ChunkText(text: string, size: nat): (chunks: seq<string>)
    requires size > 0
    ensures chunks == [] <==> text == []
    ensures forall k :: 0 <= k < |chunks| ==> |chunks[k]| <= size
  {
    RangeCountBounds(|text|, size);
    var n := RangeCount(|text|, size);
    seq(n, k requires 0 <= k < n => Slice(text, k * size, k * size + size))
  }

  /** `RangeCount` is the ceiling: the chunks cover the text and the last one
      starts inside it. */
  lemma RangeCountBounds(n: nat, size: nat)
    requires size > 0
    ensures RangeCount(n, size) * size >= n
    ensures RangeCount(n, size) > 0 ==> (RangeCount(n, size) - 1) * size < n
  {
    var c := RangeCount(n, size);
    var r := (n + size - 1) % size;
    assert n + size - 1 == c * size + r;
    if c > 0 {
      assert (c - 1) * size == c * size - size;
    }
  }

  /** `k * size` stays within the text for every chunk index `k` but the count. */
  lemma StartBounds(n: nat, size: nat, k: nat)
    requires size > 0 && k < RangeCount(n, size)
    ensures k * size < n
    ensures k * size + size >= n ==> k == RangeCount(n, size) - 1
  {
    var c := RangeCount(n, size);
    RangeCountBounds(n, size);
    MulMonotone(k, c - 1, size);
    if k * size + size >= n && k < c - 1 {
      MulMonotone(k + 1, c - 1, size);
      assert false;
    }
  }

  lemma MulMonotone(a: nat, b: nat, size: nat)
    requires a <= b
    ensures a * size <= b * size
  {
  }

  /** Joining the chunks gives the first `k * size` characters back, for each
      prefix of `k` chunks. */
  lemma {:induction false} PrefixConcat(text: string, chunks: seq<string>, size: nat, k: nat)
    requires size > 0 && k <= |chunks|
    requires forall j :: 0 <= j < |chunks| ==>
               j * size < |text| && chunks[j] == text[j * size..Min(j * size + size, |text|)]
    ensures Concat(chunks[..k]) == text[..Min(k * size, |text|)]
  {
    if k > 0 {
      PrefixConcat(text, chunks, size, k - 1);
      var lo := (k - 1) * size;
      assert lo < |text| && chunks[k - 1] == text[lo..Min(lo + size, |text|)];
      var hi := NextBound(k, size, lo, |text|);
      var prev := chunks[..k - 1];
      assert chunks[..k] == prev + [chunks[k - 1]];
      ConcatAppend(prev, [chunks[k - 1]]);
      assert Concat([chunks[k - 1]]) == chunks[k - 1] by {
        assert [chunks[k - 1]][..0] == [];
      }
      SplitPrefix(text, lo, hi);
    }
  }

  /** The bounds of chunk `k - 1`, which starts at `lo`, in the text. */
  lemma NextBound(k: nat, size: nat, lo: nat, n: nat) returns (hi: nat)
    requires k > 0 && size > 0 && lo == (k - 1) * size && lo < n
    ensures hi == Min(k * size, n) == Min(lo + size, n)
    ensures Min(lo, n) == lo && lo <= hi <= n
  {
    assert k * size == lo + size;
    hi := Min(lo + size, n);
  }

  lemma SplitPrefix(text: string, lo: nat, hi: nat)
    requires lo <= hi <= |text|
    ensures text[..hi] == text[..lo] + text[lo..hi]
  {
  }

  /** Chunking loses nothing and adds nothing: the chunks join back to the text. */
  lemma ChunksConcat(text: string, size: nat)
    requires size > 0
    ensures Concat(ChunkText(text, size)) == text
  {
    var chunks := ChunkText(text, size);
    forall j | 0 <= j < |chunks|
      ensures j * size < |text| && chunks[j] == text[j * size..Min(j * size + size, |text|)]
    {
      ChunkIsSlice(text, size, j);
    }
    PrefixConcat(text, chunks, size, |chunks|);
    RangeCountBounds(|text|, size);
    assert chunks[..|chunks|] == chunks;
  }

  /** Every chunk but the last is exactly `size` long; the last is non-empty and
      at most `size` long; and there are `ceil(|text| / size)` chunks, none for the
      empty text. */
  lemma ChunkLengths(text: string, size: nat)
    requires size > 0
    ensures var chunks := ChunkText(text, size);
            && |chunks| * size >= |text|
            && (|chunks| > 0 ==> (|chunks| - 1) * size < |text|)
            && (|chunks| == 0 <==> text == [])
            && (forall k :: 0 <= k < |chunks| - 1 ==> |chunks[k]| == size)
            && (|chunks| > 0 ==> 0 < |chunks[|chunks| - 1]| <= size)
  {
    var chunks := ChunkText(text, size);
    RangeCountBounds(|text|, size);
    forall k | 0 <= k < |chunks| - 1 ensures |chunks[k]| == size {
      ChunkLengthAt(text, size, k);
    }
    if |chunks| > 0 {
      ChunkLengthAt(text, size, |chunks| - 1);
    }
  }

  /** Chunk `k` is non-empty, and exactly `size` long unless it is the last. */
  lemma ChunkLengthAt(text: string, size: nat, k: nat)
    requires size > 0 && k < |ChunkText(text, size)|
    ensures 0 < |ChunkText(text, size)[k]|
    ensures k < |ChunkText(text, size)| - 1 ==> |ChunkText(text, size)[k]| == size
  {
    StartBounds(|text|, size, k);
    var lo := k * size;
    assert ChunkText(text, size)[k] == Slice(text, lo, lo + size);
    if k < |ChunkText(text, size)| - 1 {
      assert lo + size <= |text|;
    }
  }

  /** Each chunk is the slice of the text that starts at its index times `size`. */
  lemma ChunkIsSlice(text: string, size: nat, k: nat)
    requires size > 0 && k < |ChunkText(text, size)|
    ensures k * size < |text|
    ensures ChunkText(text, size)[k] == text[k * size..Min(k * size + size, |text|)]
  {
    StartBounds(|text|, size, k);
  }
}
