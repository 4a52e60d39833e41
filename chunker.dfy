/** The sliding-window chunker of utils/chunker.js: windows of `chunkSize`
    elements, each starting `chunkSize - overlap` elements after the previous
    one, for as long as the start lies inside the text. */
module Chunker {
  import opened Shared

  const DefaultChunkSize: nat := 1000
  const DefaultOverlap: nat := 200

  /** Distance between the starts of consecutive chunks. */
  function Step(chunkSize: nat, overlap: nat): (step: nat)
    requires overlap < chunkSize
    ensures 0 < step <= chunkSize
  {
    chunkSize - overlap
  }

  /** Offset at which chunk `k` starts. */
  function Start(chunkSize: nat, overlap: nat, k: nat): nat
    requires overlap < chunkSize
  {
    k * Step(chunkSize, overlap)
  }

  /** The start of the next chunk is one step further. */
  lemma StartAdvances(chunkSize: nat, overlap: nat, k: nat)
    requires overlap < chunkSize
    ensures Start(chunkSize, overlap, k + 1) == Start(chunkSize, overlap, k) + Step(chunkSize, overlap)
  {
  }

  /** Multiplying by a non-negative factor keeps the order. */
  lemma {:induction false} MultiplyMonotone(a: nat, b: nat, d: nat)
    requires a <= b
    ensures a * d <= b * d
  {
    if a < b {
      MultiplyMonotone(a, b - 1, d);
      assert b * d == (b - 1) * d + d;
    }
  }

  /** Chunk `k`, as `text.slice(start, start + chunkSize)` computes it. */
  function Chunk<T>(text: seq<T>, chunkSize: nat, overlap: nat, k: nat): seq<T>
    requires overlap < chunkSize
  {
    Slice(text, Start(chunkSize, overlap, k), Start(chunkSize, overlap, k) + chunkSize)
  }

  /** ceil(len / (chunkSize - overlap)). */
  function ChunkCount(len: nat, chunkSize: nat, overlap: nat): nat
    requires overlap < chunkSize
  {
    (len + Step(chunkSize, overlap) - 1) / Step(chunkSize, overlap)
  }

  /** The whole list of chunks of `text`. */
  function Chunks<T>(text: seq<T>, chunkSize: nat, overlap: nat): seq<seq<T>>
    requires overlap < chunkSize
  {
    seq(ChunkCount(|text|, chunkSize, overlap), k requires 0 <= k => Chunk(text, chunkSize, overlap, k))
  }

  /** `chunkText(text, chunkSize, overlap)`. The source does not guard against
      `overlap >= chunkSize`, where its loop never ends on a non-empty text
      (see IndexNeverReachesEnd); here that is excluded by the precondition. */
  method ChunkText<T>(text: seq<T>, chunkSize: nat, overlap: nat) returns (chunks: seq<seq<T>>)
    requires overlap < chunkSize
    ensures chunks == Chunks(text, chunkSize, overlap)
    ensures |text| == 0 <==> chunks == []
  {
    chunks := [];
    var index := 0;
    while index < |text|
      invariant index == Start(chunkSize, overlap, |chunks|)
      invariant chunks != [] ==> index - Step(chunkSize, overlap) < |text|
      invariant forall k :: 0 <= k < |chunks| ==> chunks[k] == Chunk(text, chunkSize, overlap, k)
      decreases |text| - index
    {
      var chunk := Slice(text, index, index + chunkSize);
      StartAdvances(chunkSize, overlap, |chunks|);
      chunks := chunks + [chunk];
      index := index + chunkSize - overlap;
    }
    if chunks != [] {
      StartAdvances(chunkSize, overlap, |chunks| - 1);
    }
    ChunkCountIsCeiling(|text|, chunkSize, overlap, |chunks|);
  }

  /** `q` is the quotient of `x` by `d` when `x` lies in `[q*d, q*d + d)`. */
  lemma DivisionByBounds(x: nat, d: nat, q: nat)
    requires 0 < d && q * d <= x < q * d + d
    ensures x / d == q
  {
    var q', r := x / d, x % d;
    assert x == q' * d + r && 0 <= r < d;
    if q' < q {
      MultiplyMonotone(q' + 1, q, d);
    } else if q' > q {
      MultiplyMonotone(q + 1, q', d);
    }
  }

  /** The chunk count is the ceiling of len / step: the least number of steps
      that reaches or passes the end of the text. */
  lemma ChunkCountIsCeiling(len: nat, chunkSize: nat, overlap: nat, n: nat)
    requires overlap < chunkSize
    ensures n == ChunkCount(len, chunkSize, overlap) <==>
            len <= n * Step(chunkSize, overlap) && (n == 0 || (n - 1) * Step(chunkSize, overlap) < len)
  {
    var d := Step(chunkSize, overlap);
    var c := ChunkCount(len, chunkSize, overlap);
    var r := (len + d - 1) % d;
    assert len + d - 1 == c * d + r && 0 <= r < d;
    assert len <= c * d;
    assert c == 0 || (c - 1) * d < len by {
      if c > 0 { assert (c - 1) * d == c * d - d; }
    }
    if len <= n * d && (n == 0 || (n - 1) * d < len) {
      if n == 0 {
        assert len == 0;
        DivisionByBounds(len + d - 1, d, 0);
      } else {
        assert (n - 1) * d == n * d - d;
        DivisionByBounds(len + d - 1, d, n);
      }
    }
  }

  /** Empty text gives no chunk; non-empty text at least one. */
  lemma EmptyTextNoChunks<T>(text: seq<T>, chunkSize: nat, overlap: nat)
    requires overlap < chunkSize
    ensures Chunks(text, chunkSize, overlap) == [] <==> |text| == 0
  {
    ChunkCountIsCeiling(|text|, chunkSize, overlap, ChunkCount(|text|, chunkSize, overlap));
  }

  /** Start offsets strictly increase, and every chunk starts inside the text. */
  lemma StartsIncrease(len: nat, chunkSize: nat, overlap: nat, j: nat, k: nat)
    requires overlap < chunkSize
    requires j < k < ChunkCount(len, chunkSize, overlap)
    ensures Start(chunkSize, overlap, j) < Start(chunkSize, overlap, k) < len
  {
    StartAdvances(chunkSize, overlap, j);
    MultiplyMonotone(j + 1, k, Step(chunkSize, overlap));
    StartInsideText(len, chunkSize, overlap, k);
  }

  /** Every chunk counted starts inside the text. */
  lemma StartInsideText(len: nat, chunkSize: nat, overlap: nat, k: nat)
    requires overlap < chunkSize
    requires k < ChunkCount(len, chunkSize, overlap)
    ensures Start(chunkSize, overlap, k) < len
  {
    var n := ChunkCount(len, chunkSize, overlap);
    ChunkCountIsCeiling(len, chunkSize, overlap, n);
    MultiplyMonotone(k, n - 1, Step(chunkSize, overlap));
  }

  /** Chunk k is the window `text[s_k .. min(s_k + chunkSize, len))`, its start
      lies inside the text, and its length is min(chunkSize, len - s_k). */
  lemma ChunkIsWindow<T>(text: seq<T>, chunkSize: nat, overlap: nat, k: nat)
    requires overlap < chunkSize
    requires k < ChunkCount(|text|, chunkSize, overlap)
    ensures var s := Start(chunkSize, overlap, k);
            s < |text| &&
            Chunk(text, chunkSize, overlap, k) == text[s..Min(s + chunkSize, |text|)] &&
            |Chunk(text, chunkSize, overlap, k)| == Min(chunkSize, |text| - s) <= chunkSize
  {
    StartInsideText(|text|, chunkSize, overlap, k);
  }

  /** Consecutive chunks share exactly the text between the start of the later
      one and the end of the earlier one: a suffix of chunk k, a prefix of
      chunk k + 1, of length min(overlap, len - s_{k+1}). */
  lemma ConsecutiveChunksOverlap<T>(text: seq<T>, chunkSize: nat, overlap: nat, k: nat)
    requires overlap < chunkSize
    requires k + 1 < ChunkCount(|text|, chunkSize, overlap)
    ensures var a := Start(chunkSize, overlap, k + 1);
            var b := Min(Start(chunkSize, overlap, k) + chunkSize, |text|);
            var prev := Chunk(text, chunkSize, overlap, k);
            var next := Chunk(text, chunkSize, overlap, k + 1);
            a <= b && b - a == Min(overlap, |text| - a) &&
            b - a <= |prev| && b - a <= |next| &&
            prev[|prev| - (b - a)..] == text[a..b] &&
            next[..b - a] == text[a..b]
  {
    ChunkIsWindow(text, chunkSize, overlap, k);
    ChunkIsWindow(text, chunkSize, overlap, k + 1);
    assert Start(chunkSize, overlap, k + 1) == Start(chunkSize, overlap, k) + Step(chunkSize, overlap);
  }

  /** The last chunk ends exactly at the end of the text. */
  lemma LastChunkReachesEnd<T>(text: seq<T>, chunkSize: nat, overlap: nat)
    requires overlap < chunkSize
    requires |text| > 0
    ensures var n := ChunkCount(|text|, chunkSize, overlap);
            n > 0 &&
            Start(chunkSize, overlap, n - 1) + |Chunk(text, chunkSize, overlap, n - 1)| == |text|
  {
    var d := Step(chunkSize, overlap);
    var n := ChunkCount(|text|, chunkSize, overlap);
    ChunkCountIsCeiling(|text|, chunkSize, overlap, n);
    ChunkIsWindow(text, chunkSize, overlap, n - 1);
    assert (n - 1) * d + d == n * d;
  }

  /** Every position of the text lies inside some chunk. */
  lemma ChunksCoverText<T>(text: seq<T>, chunkSize: nat, overlap: nat, p: nat)
    requires overlap < chunkSize
    requires p < |text|
    ensures exists k: nat :: k < ChunkCount(|text|, chunkSize, overlap) &&
              Start(chunkSize, overlap, k) <= p < Start(chunkSize, overlap, k) + |Chunk(text, chunkSize, overlap, k)|
  {
    var d := Step(chunkSize, overlap);
    var n := ChunkCount(|text|, chunkSize, overlap);
    var k := p / d;
    assert k * d <= p < k * d + d by {
      assert p == k * d + p % d;
    }
    ChunkCountIsCeiling(|text|, chunkSize, overlap, n);
    if n <= k {
      MultiplyMonotone(n, k, d);
      assert false;
    }
    ChunkIsWindow(text, chunkSize, overlap, k);
    assert Start(chunkSize, overlap, k) == k * d;
  }

  /** The value of `index` after `k` rounds of the source's loop, for any
      arguments, including those the source does not reject. */
  function IndexAfter(chunkSize: int, overlap: int, k: nat): int
  {
    if k == 0 then 0 else IndexAfter(chunkSize, overlap, k - 1) + (chunkSize - overlap)
  }

  /** With `overlap >= chunkSize` the index never advances: on a non-empty text
      the loop test `index < text.length` holds after every round, so the source
      loops forever. */
  lemma {:induction false} IndexNeverReachesEnd(textLength: nat, chunkSize: int, overlap: int, k: nat)
    requires chunkSize <= overlap
    requires textLength > 0
    ensures IndexAfter(chunkSize, overlap, k) <= 0 < textLength
  {
    if k > 0 {
      IndexNeverReachesEnd(textLength, chunkSize, overlap, k - 1);
    }
  }

  /** With the defaults, 1000 characters give two chunks (the second is the
      last 200 characters), not ceil((1000 - 200) / 800) = 1. */
  lemma ThousandCharactersGiveTwoChunks<T>(text: seq<T>)
    requires |text| == 1000
    ensures |Chunks(text, DefaultChunkSize, DefaultOverlap)| == 2
    ensures Chunks(text, DefaultChunkSize, DefaultOverlap)[1] == text[800..]
  {
    ChunkIsWindow(text, DefaultChunkSize, DefaultOverlap, 1);
  }

  /** With the defaults, 900 characters give a first chunk of 900 and a second
      of 100: a chunk that is not the last may be shorter than chunkSize, and
      the two share only 100 characters, not `overlap` = 200. */
  lemma NonLastChunkMayBeShort<T>(text: seq<T>)
    requires |text| == 900
    ensures var cs := Chunks(text, DefaultChunkSize, DefaultOverlap);
            |cs| == 2 && |cs[0]| == 900 && |cs[1]| == 100 &&
            cs[0][800..] == cs[1] == text[800..]
  {
    ChunkIsWindow(text, DefaultChunkSize, DefaultOverlap, 0);
    ChunkIsWindow(text, DefaultChunkSize, DefaultOverlap, 1);
  }
}
